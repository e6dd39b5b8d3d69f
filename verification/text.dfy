/**
 * The string side of the tokens: decimal formatting of integers
 * (`long.ToString()`, string interpolation), parsing (`long.TryParse`) and
 * `string.Split(char)`.
 */
module Text {
  import opened Common

  predicate IsDigit(c: char)
  {
    '0' <= c <= '9'
  }

  predicate AllDigits(s: string)
  {
    forall i :: 0 <= i < |s| ==> IsDigit(s[i])
  }

  function DigitChar(d: int): (c: char)
    requires 0 <= d < 10
    ensures IsDigit(c) && c as int - '0' as int == d
  {
    ('0' as int + d) as char
  }

  /** The decimal digits of n, most significant first, without leading zeros. */
  function Digits(n: nat): (s: string)
    ensures |s| >= 1 && AllDigits(s)
    ensures |s| > 1 ==> s[0] != '0'
    decreases n
  {
    if n < 10 then [DigitChar(n)] else Digits(n / 10) + [DigitChar(n % 10)]
  }

  /** The number a string of decimal digits denotes. */
  function DigitsValue(s: string): nat
    requires AllDigits(s)
  {
    if s == [] then 0
    else DigitsValue(s[..|s| - 1]) * 10 + (s[|s| - 1] as int - '0' as int)
  }

  lemma {:induction false} DigitsValueOfDigits(n: nat)
    ensures DigitsValue(Digits(n)) == n
    decreases n
  {
    if n >= 10 {
      DigitsValueOfDigits(n / 10);
      var s := Digits(n);
      assert s[..|s| - 1] == Digits(n / 10);
    }
  }

  /** `x.ToString()` for an integer: an optional '-' then the digits of |x|. */
  function FormatInt(x: int): (s: string)
    ensures |s| >= 1 && '*' !in s
    ensures s[0] == '-' <==> x < 0
  {
    if x < 0 then "-" + Digits(-x) else Digits(x)
  }

  /**
   * `long.TryParse` restricted to the plain grammar: an optional '-', one or
   * more decimal digits, and a value within the `long` range.
   */
  function ParseInt64(s: string): (r: Option<Int64>)
    ensures r.Some? ==> |s| >= 1 && '*' !in s
    ensures r.Some? ==> (r.value < 0 <==> s[0] == '-' && r.value != 0)
  {
    if |s| == 0 then None
    else if s[0] == '-' then
      if |s| >= 2 && AllDigits(s[1..]) && DigitsValue(s[1..]) <= -MinInt64
      then (assert forall i :: 1 <= i < |s| ==> s[i] == s[1..][i - 1];
            Some(0 - DigitsValue(s[1..])))
      else None
    else if AllDigits(s) && DigitsValue(s) <= MaxInt64 then Some(DigitsValue(s))
    else None
  }

  /** Parsing inverts formatting for every `long`, including 0, negatives and both extremes. */
  lemma ParseFormat(x: Int64)
    ensures ParseInt64(FormatInt(x)) == Some(x)
  {
    if x < 0 {
      ParseFormatNegative(x);
    } else {
      DigitsValueOfDigits(x);
      var s := FormatInt(x);
      assert s == Digits(x) && s[0] != '-';
      assert ParseInt64(s) == Some(DigitsValue(s));
    }
  }

  lemma ParseFormatNegative(x: Int64)
    requires x < 0
    ensures ParseInt64(FormatInt(x)) == Some(x)
  {
    var n := -(x as int);
    var d := Digits(n);
    DigitsValueOfDigits(n);
    var s := "-" + d;
    assert FormatInt(x) == s;
    assert s[0] == '-' && s[1..] == d && |s| >= 2;
    assert ParseInt64(s) == Some(0 - DigitsValue(d));
  }

  /** The first id, 1, is formatted as "1". */
  lemma FormatOne()
    ensures FormatInt(1) == "1"
  {
    assert Digits(1) == [DigitChar(1)];
  }

  /** Formatting is injective on `long`s, so a formatted id names exactly one id. */
  lemma FormatIntInjective(x: Int64, y: Int64)
    requires FormatInt(x) == FormatInt(y)
    ensures x == y
  {
    ParseFormat(x);
    ParseFormat(y);
  }

  /** Number of occurrences of c in s. */
  function Count(s: string, c: char): nat
  {
    if s == [] then 0 else (if s[0] == c then 1 else 0) + Count(s[1..], c)
  }

  /** The parts glued back together with one separator between neighbours (`string.Join`). */
  function Join(parts: seq<string>, sep: char): string
    requires |parts| >= 1
    decreases |parts|
  {
    if |parts| == 1 then parts[0] else parts[0] + [sep] + Join(parts[1..], sep)
  }

  /**
   * `s.Split(sep)`: the maximal separator-free pieces between separators,
   * empty pieces included; one more piece than there are separators. Joined
   * with the separator, the pieces give back s; since no piece holds the
   * separator, that fixes the pieces.
   */
  function Split(s: string, sep: char): (parts: seq<string>)
    ensures |parts| == Count(s, sep) + 1
    ensures forall i :: 0 <= i < |parts| ==> sep !in parts[i]
    ensures Join(parts, sep) == s
    decreases |s|
  {
    if s == [] then [""]
    else
      var rest := Split(s[1..], sep);
      if s[0] == sep then
        assert ([""] + rest)[1..] == rest;
        assert [s[0]] + s[1..] == s;
        [""] + rest
      else
        var parts := [[s[0]] + rest[0]] + rest[1..];
        assert |rest| > 1 ==> parts[1..] == rest[1..] && Join(rest, sep) == rest[0] + [sep] + Join(rest[1..], sep);
        assert [s[0]] + s[1..] == s;
        parts
  }

  lemma {:induction false} SplitWithoutSeparator(s: string, sep: char)
    requires sep !in s
    ensures Split(s, sep) == [s]
    decreases |s|
  {
    if s != [] {
      SplitWithoutSeparator(s[1..], sep);
      assert [s[0]] + s[1..] == s;
    }
  }

  lemma {:induction false} SplitPrefix(a: string, b: string, sep: char)
    requires sep !in a
    ensures Split(a + b, sep) == [a + Split(b, sep)[0]] + Split(b, sep)[1..]
    decreases |a|
  {
    if a != [] {
      assert (a + b)[1..] == a[1..] + b;
      SplitPrefix(a[1..], b, sep);
      assert [a[0]] + (a[1..] + Split(b, sep)[0]) == a + Split(b, sep)[0];
    } else {
      var parts := Split(b, sep);
      assert a + b == b;
      assert a + parts[0] == parts[0];
      assert parts == [parts[0]] + parts[1..];
    }
  }

  /**
   * The converse of Split's join property: separator-free parts joined with
   * the separator split back into exactly those parts.
   */
  lemma {:induction false} SplitJoin(parts: seq<string>, sep: char)
    requires |parts| >= 1 && forall i :: 0 <= i < |parts| ==> sep !in parts[i]
    ensures Split(Join(parts, sep), sep) == parts
    decreases |parts|
  {
    if |parts| == 1 {
      SplitWithoutSeparator(parts[0], sep);
    } else {
      var tail := Join(parts[1..], sep);
      SplitJoin(parts[1..], sep);
      assert ([sep] + tail)[1..] == tail;
      assert Split([sep] + tail, sep) == [""] + parts[1..];
      assert Join(parts, sep) == parts[0] + ([sep] + tail);
      SplitPrefix(parts[0], [sep] + tail, sep);
      assert parts[0] + "" == parts[0];
      assert parts == [parts[0]] + parts[1..];
    }
  }

  /** Splitting `a*b` gives back a and b when neither holds the separator. */
  lemma SplitPair(a: string, b: string, sep: char)
    requires sep !in a && sep !in b
    ensures Split(a + [sep] + b, sep) == [a, b]
  {
    SplitWithoutSeparator(b, sep);
    assert ([sep] + b)[1..] == b;
    assert Split([sep] + b, sep) == ["", b];
    assert a + [sep] + b == a + ([sep] + b);
    SplitPrefix(a, [sep] + b, sep);
    assert a + "" == a;
  }
}
