/**
 * The pieces of the Java string library the client relies on:
 * `Integer.toString`, the grouped number rendering `MessageFormat` applies to
 * an `int` argument, `String.join` and `String.split` with a one-character
 * literal separator.
 */
module Text {

  import opened Wrappers

  predicate IsDigit(c: char) { '0' <= c <= '9' }

  function DigitChar(d: int): (c: char)
    requires 0 <= d < 10
    ensures IsDigit(c) && c as int - '0' as int == d
  {
    ('0' as int + d) as char
  }

  /** The decimal digits of a natural number, most significant first, no leading zero. */
  function Digits(n: nat): (s: string)
    ensures |s| >= 1 && (forall i :: 0 <= i < |s| ==> IsDigit(s[i]))
    ensures n < 10 <==> |s| == 1
    decreases n
  {
    if n < 10 then [DigitChar(n)] else Digits(n / 10) + [DigitChar(n % 10)]
  }

  /** The value of a non-empty string of decimal digits. */
  function DigitsValue(s: string): (v: int)
    requires forall i :: 0 <= i < |s| ==> IsDigit(s[i])
    ensures v >= 0
  {
    if s == [] then 0
    else
      assert IsDigit(s[|s| - 1]);
      10 * DigitsValue(s[..|s| - 1]) + (s[|s| - 1] as int - '0' as int)
  }

  /** `Integer.toString(n)`: a minus sign for negative values, then the digits; no grouping. */
  function Decimal(n: int): (s: string)
    ensures |s| >= 1 && (s[0] == '-' <==> n < 0)
    ensures forall i :: 0 <= i < |s| ==> IsDigit(s[i]) || (i == 0 && s[i] == '-')
  {
    if n < 0 then "-" + Digits(-n) else Digits(n)
  }

  /** The inverse of `Decimal`, on the strings it produces. */
  function ParseDecimal(s: string): (r: Option<int>)
  {
    if |s| >= 2 && s[0] == '-' && (forall i :: 1 <= i < |s| ==> IsDigit(s[i])) then
      Some(-DigitsValue(s[1..]))
    else if |s| >= 1 && (forall i :: 0 <= i < |s| ==> IsDigit(s[i])) then
      Some(DigitsValue(s))
    else
      None
  }

  lemma {:induction false} DigitsRoundTrip(n: nat)
    ensures DigitsValue(Digits(n)) == n
    decreases n
  {
    if n >= 10 {
      var s := Digits(n);
      assert s[..|s| - 1] == Digits(n / 10);
      DigitsRoundTrip(n / 10);
    }
  }

  /** `Integer.toString` loses nothing: parsing its output gives the number back. */
  lemma DecimalRoundTrip(n: int)
    ensures ParseDecimal(Decimal(n)) == Some(n)
  {
    if n < 0 {
      ParseNegative(-n);
    } else {
      ParseNatural(n);
    }
  }

  /** A minus sign followed by the digits of m parses as -m. */
  lemma ParseNegative(m: nat)
    ensures ParseDecimal("-" + Digits(m)) == Some(-(m as int))
  {
    var s := "-" + Digits(m);
    assert s[1..] == Digits(m);
    DigitsRoundTrip(m);
    assert forall i :: 1 <= i < |s| ==> s[i] == Digits(m)[i - 1];
  }

  /** The digits of m parse as m. */
  lemma ParseNatural(m: nat)
    ensures ParseDecimal(Digits(m)) == Some(m)
  {
    DigitsRoundTrip(m);
    assert !IsDigit('-');
  }

  /** Distinct numbers render as distinct strings. */
  lemma DecimalInjective(a: int, b: int)
    requires Decimal(a) == Decimal(b)
    ensures a == b
  {
    DecimalRoundTrip(a);
    DecimalRoundTrip(b);
  }

  /** Inserts ',' between groups of three digits, counted from the right. */
  function GroupDigits(ds: string): (r: string)
    ensures |ds| >= 1 ==> |r| == |ds| + (|ds| - 1) / 3
    ensures forall i :: 0 <= i < |r| ==> r[i] == ',' || r[i] in ds
    decreases |ds|
  {
    if |ds| <= 3 then ds
    else
      var front, back := ds[..|ds| - 3], ds[|ds| - 3..];
      assert forall c :: c in front || c in back ==> c in ds;
      GroupDigits(front) + "," + back
  }

  /** Grouping digits adds nothing but commas. */
  lemma GroupDigitsAlphabet(ds: string)
    requires forall i :: 0 <= i < |ds| ==> IsDigit(ds[i])
    ensures forall i :: 0 <= i < |GroupDigits(ds)| ==> IsDigit(GroupDigits(ds)[i]) || GroupDigits(ds)[i] == ','
  {
  }

  /**
   * What `MessageFormat` writes for an `int` argument (`{4}`, `{1}`):
   * the default locale's `NumberFormat`, taken here as ',' grouping of three digits.
   */
  function Grouped(n: int): (s: string)
    ensures |s| >= 1 && (s[0] == '-' <==> n < 0)
    ensures forall i :: 0 <= i < |s| ==> IsDigit(s[i]) || s[i] == ',' || (i == 0 && s[i] == '-')
  {
    var ds := Digits(if n < 0 then -n else n);
    GroupDigitsAlphabet(ds);
    if n < 0 then "-" + GroupDigits(ds) else GroupDigits(ds)
  }

  function RemoveAll(s: string, c: char): (r: string)
    ensures c !in r
  {
    if s == [] then [] else (if s[0] == c then [] else [s[0]]) + RemoveAll(s[1..], c)
  }

  lemma RemoveAllAppend(a: string, b: string, c: char)
    ensures RemoveAll(a + b, c) == RemoveAll(a, c) + RemoveAll(b, c)
  {
    if a != [] {
      assert (a + b)[0] == a[0] && (a + b)[1..] == a[1..] + b;
      RemoveAllAppend(a[1..], b, c);
    } else {
      assert a + b == b;
    }
  }

  lemma RemoveAllAbsent(s: string, c: char)
    requires c !in s
    ensures RemoveAll(s, c) == s
  {
  }

  lemma {:induction false} GroupDigitsUngroup(ds: string)
    requires ',' !in ds
    ensures RemoveAll(GroupDigits(ds), ',') == ds
    decreases |ds|
  {
    if |ds| > 3 {
      var front, back := ds[..|ds| - 3], ds[|ds| - 3..];
      assert ds == front + back;
      assert ',' !in front && ',' !in back;
      var g := GroupDigits(front);
      assert GroupDigits(ds) == g + "," + back;
      GroupDigitsUngroup(front);
      RemoveAllAppend(g + ",", back, ',');
      RemoveAllAppend(g, ",", ',');
      assert RemoveAll(",", ',') == [];
      RemoveAllAbsent(back, ',');
      assert RemoveAll(g + ",", ',') == front;
    } else {
      RemoveAllAbsent(ds, ',');
    }
  }

  /** Grouping only inserts separators: with them removed, `Grouped` is `Integer.toString`. */
  lemma GroupedUngroup(n: int)
    ensures RemoveAll(Grouped(n), ',') == Decimal(n)
  {
    if n < 0 {
      GroupDigitsUngroup(Digits(-n));
      RemoveAllAppend("-", GroupDigits(Digits(-n)), ',');
    } else {
      GroupDigitsUngroup(Digits(n));
    }
  }

  /** Below one thousand in magnitude no separator appears: `Grouped` is `Integer.toString`. */
  lemma GroupedSmall(n: int)
    requires -1000 < n < 1000
    ensures Grouped(n) == Decimal(n)
  {
    var m := if n < 0 then -n else n;
    assert Digits(m) == if m < 10 then [DigitChar(m)] else Digits(m / 10) + [DigitChar(m % 10)];
    if m >= 10 {
      assert |Digits(m / 10)| <= 2;
    }
  }

  /** `String.join(sep, parts)`. */
  function Join(sep: char, parts: seq<string>): (r: string)
    ensures forall i :: 0 <= i < |r| ==> r[i] == sep || exists k :: 0 <= k < |parts| && r[i] in parts[k]
  {
    if |parts| == 0 then "" else if |parts| == 1 then parts[0] else parts[0] + [sep] + Join(sep, parts[1..])
  }

  /** Cuts `s` at every occurrence of `sep`, keeping every piece, empty ones included. */
  function SplitAll(s: string, sep: char): (r: seq<string>)
    ensures |r| >= 1
    ensures forall i :: 0 <= i < |r| ==> sep !in r[i]
  {
    if s == [] then [[]]
    else
      var rest := SplitAll(s[1..], sep);
      if s[0] == sep then [[]] + rest else [[s[0]] + rest[0]] + rest[1..]
  }

  lemma {:induction false} JoinSplitAll(s: string, sep: char)
    ensures Join(sep, SplitAll(s, sep)) == s
  {
    if s != [] {
      var rest := SplitAll(s[1..], sep);
      JoinSplitAll(s[1..], sep);
      if s[0] != sep && |rest| > 1 {
        assert ([[s[0]] + rest[0]] + rest[1..])[1..] == rest[1..];
      }
    }
  }

  lemma {:induction false} SplitAllPrefix(p: string, sep: char, rest: string)
    requires sep !in p
    ensures SplitAll(p + [sep] + rest, sep) == [p] + SplitAll(rest, sep)
  {
    if p != [] {
      assert (p + [sep] + rest)[0] == p[0] != sep;
      assert (p + [sep] + rest)[1..] == p[1..] + [sep] + rest;
      SplitAllPrefix(p[1..], sep, rest);
      assert [p[0]] + p[1..] == p;
    } else {
      assert (p + [sep] + rest)[1..] == rest;
    }
  }

  lemma {:induction false} SplitAllAbsent(p: string, sep: char)
    requires sep !in p
    ensures SplitAll(p, sep) == [p]
  {
    if p != [] {
      assert p[0] != sep;
      SplitAllAbsent(p[1..], sep);
      assert [p[0]] + p[1..] == p;
    }
  }

  /** Joining pieces free of the separator and cutting again gives the pieces back. */
  lemma {:induction false} SplitAllJoin(parts: seq<string>, sep: char)
    requires |parts| >= 1
    requires forall i :: 0 <= i < |parts| ==> sep !in parts[i]
    ensures SplitAll(Join(sep, parts), sep) == parts
  {
    if |parts| == 1 {
      SplitAllAbsent(parts[0], sep);
    } else {
      SplitAllJoin(parts[1..], sep);
      SplitAllPrefix(parts[0], sep, Join(sep, parts[1..]));
    }
  }

  /** Removes the empty pieces at the end of a list, as `String.split` does with limit 0. */
  function DropTrailingEmpty(parts: seq<string>): (r: seq<string>)
    ensures |r| <= |parts| && r == parts[..|r|]
    ensures r == [] || r[|r| - 1] != []
    ensures forall i :: |r| <= i < |parts| ==> parts[i] == []
  {
    if |parts| == 0 then []
    else if parts[|parts| - 1] == [] then DropTrailingEmpty(parts[..|parts| - 1])
    else parts
  }

  /**
   * `s.split(sep)` for a separator that is one literal character: without an
   * occurrence of `sep` the answer is `[s]`; otherwise the pieces, with the
   * trailing empty ones dropped.
   */
  function JavaSplit(s: string, sep: char): (r: seq<string>)
    ensures forall i :: 0 <= i < |r| ==> sep !in r[i]
    ensures sep !in s ==> r == [s]
    ensures sep in s ==> r == [] || r[|r| - 1] != ""
    ensures Join(sep, r) <= s
    ensures forall i :: |Join(sep, r)| <= i < |s| ==> s[i] == sep
  {
    if sep !in s then [s]
    else
      var all := SplitAll(s, sep);
      var r := DropTrailingEmpty(all);
      JoinSplitAll(s, sep);
      JoinOfPrefix(all, |r|, sep);
      r
  }

  /**
   * Joining the first `k` parts gives a prefix of the whole join, and when the
   * parts after them are empty, what follows that prefix is only separators.
   */
  lemma {:induction false} JoinOfPrefix(parts: seq<string>, k: nat, sep: char)
    requires k <= |parts|
    ensures Join(sep, parts[..k]) <= Join(sep, parts)
    ensures (forall j :: k <= j < |parts| ==> parts[j] == "") ==>
      forall i :: |Join(sep, parts[..k])| <= i < |Join(sep, parts)| ==> Join(sep, parts)[i] == sep
  {
    var whole := Join(sep, parts);
    if k == 0 {
      assert parts[..k] == [];
      if forall j :: k <= j < |parts| ==> parts[j] == "" {
        assert forall i :: 0 <= i < |whole| ==> whole[i] == sep;
      }
    } else if |parts| == 1 {
      assert parts[..k] == parts;
    } else {
      var tail := parts[1..];
      assert whole == parts[0] + [sep] + Join(sep, tail);
      assert forall j :: 0 <= j < |tail| ==> tail[j] == parts[j + 1];
      JoinOfPrefix(tail, k - 1, sep);
      var front := Join(sep, parts[..k]);
      var tailFront := Join(sep, tail[..k - 1]);
      if k == 1 {
        assert parts[..k] == [parts[0]];
        assert front == parts[0];
        assert tail[..0] == [];
      } else {
        assert parts[..k][1..] == tail[..k - 1];
        assert front == parts[0] + [sep] + tailFront;
      }
      if forall j :: k <= j < |parts| ==> parts[j] == "" {
        assert forall j :: k - 1 <= j < |tail| ==> tail[j] == "";
        forall i | |front| <= i < |whole| ensures whole[i] == sep {
          if i > |parts[0]| {
            assert whole[i] == Join(sep, tail)[i - |parts[0]| - 1];
          }
        }
      }
    }
  }
}
