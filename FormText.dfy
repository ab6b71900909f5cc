/**
 * The text handling of the add-event form: String.prototype.split on a
 * one-character separator, and Number() applied to each piece.
 */
module FormText {
  import opened JsDate

  /** Pieces joined back with the separator between them. */
  function Join(parts: seq<string>, sep: char): (s: string)
    requires |parts| >= 1
    ensures |s| == |parts| - 1 + SumLengths(parts)
  {
    if |parts| == 1 then parts[0] else parts[0] + [sep] + Join(parts[1..], sep)
  }

  function SumLengths(parts: seq<string>): nat {
    if parts == [] then 0 else |parts[0]| + SumLengths(parts[1..])
  }

  /**
   * s.split(sep): the maximal pieces of s that do not contain sep, in order.
   * There is always at least one piece; "" gives [""], and a separator at
   * either end gives an empty piece there.
   */
  function Split(s: string, sep: char): (parts: seq<string>)
    ensures |parts| >= 1
    ensures forall i :: 0 <= i < |parts| ==> sep !in parts[i]
    ensures Join(parts, sep) == s
    decreases |s|
  {
    if s == [] then [""]
    else
      var rest := Split(s[1..], sep);
      if s[0] == sep then
        [""] + rest
      else
        assert Join(rest, sep) == s[1..];
        var parts := [[s[0]] + rest[0]] + rest[1..];
        assert forall i :: 1 <= i < |parts| ==> parts[i] == rest[i];
        assert Join(parts, sep) == s by {
          if |rest| > 1 {
            assert rest == [rest[0]] + rest[1..];
            assert parts[1..] == rest[1..];
          }
        }
        parts
  }

  /** Text without the separator is a single piece. */
  lemma {:induction false} SplitNoSeparator(x: string, sep: char)
    requires sep !in x
    ensures Split(x, sep) == [x]
  {
    if x != [] {
      SplitNoSeparator(x[1..], sep);
      assert [x[0]] + x[1..] == x;
    }
  }

  /** A separator-free prefix followed by the separator is the first piece. */
  lemma {:induction false} SplitFirstPiece(x: string, sep: char, y: string)
    requires sep !in x
    ensures Split(x + [sep] + y, sep) == [x] + Split(y, sep)
  {
    var s := x + [sep] + y;
    if x == [] {
      assert s[1..] == y;
    } else {
      assert s[1..] == x[1..] + [sep] + y;
      var rest := Split(s[1..], sep);
      SplitFirstPiece(x[1..], sep, y);
      assert rest[0] == x[1..] && rest[1..] == Split(y, sep);
      assert s[0] == x[0] && s[0] != sep;
      assert Split(s, sep) == [[x[0]] + rest[0]] + rest[1..];
      assert [x[0]] + x[1..] == x;
    }
  }

  /** Splitting text that was joined from separator-free pieces gives back those pieces. */
  lemma {:induction false} SplitJoin(parts: seq<string>, sep: char)
    requires |parts| >= 1
    requires forall i :: 0 <= i < |parts| ==> sep !in parts[i]
    ensures Split(Join(parts, sep), sep) == parts
  {
    if |parts| == 1 {
      SplitNoSeparator(parts[0], sep);
    } else {
      SplitJoin(parts[1..], sep);
      SplitFirstPiece(parts[0], sep, Join(parts[1..], sep));
      assert parts == [parts[0]] + parts[1..];
    }
  }

  predicate IsDigit(c: char) {
    '0' <= c <= '9'
  }

  predicate AllDigits(s: string) {
    forall i :: 0 <= i < |s| ==> IsDigit(s[i])
  }

  /** The value of a string of decimal digits (the empty string is 0). */
  function DigitsValue(s: string): (n: nat)
    requires AllDigits(s)
  {
    if s == [] then 0 else DigitsValue(s[..|s| - 1]) * 10 + (s[|s| - 1] - '0') as int
  }

  /**
   * Number(s) for the strings the form handles: the empty string is 0, a
   * string of decimal digits is its value, and anything else is NaN.
   */
  function ToNumber(s: string): (x: Numeric)
    ensures x.Finite? <==> AllDigits(s)
    ensures x.Finite? ==> x.value >= 0
  {
    if AllDigits(s) then Finite(DigitsValue(s)) else NaN
  }

  /** The decimal numeral of n, without leading zeros ("0" for zero). */
  function Decimal(n: nat): (s: string)
    ensures |s| >= 1 && AllDigits(s)
  {
    if n < 10 then [('0' as int + n) as char] else Decimal(n / 10) + [('0' as int + n % 10) as char]
  }

  /** Number() reads back what Decimal writes. */
  lemma {:induction false} ToNumberDecimal(n: nat)
    ensures ToNumber(Decimal(n)) == Finite(n)
  {
    var s := Decimal(n);
    if n < 10 {
      assert s[..0] == [];
      assert DigitsValue(s) == DigitsValue([]) * 10 + (s[0] - '0') as int;
    } else {
      ToNumberDecimal(n / 10);
      assert s[..|s| - 1] == Decimal(n / 10);
      assert (s[|s| - 1] - '0') as int == n % 10;
    }
  }

  /** Number() also reads numerals padded with leading zeros, as in "03". */
  lemma {:induction false} ToNumberLeadingZero(s: string)
    requires AllDigits(s)
    ensures ToNumber("0" + s) == ToNumber(s)
    decreases |s|
  {
    if s != [] {
      var init := s[..|s| - 1];
      ToNumberLeadingZero(init);
      assert ("0" + s)[..|s|] == "0" + init;
    }
  }

  /** The numeral of n padded with leading zeros to at least `width` digits, as date and time inputs write it. */
  function Padded(n: nat, width: nat): (s: string)
    ensures |s| >= 1 && AllDigits(s)
    decreases width
  {
    if width <= |Decimal(n)| then Decimal(n) else "0" + Padded(n, width - 1)
  }

  /** Number() reads a padded numeral as its value. */
  lemma {:induction false} ToNumberPadded(n: nat, width: nat)
    ensures ToNumber(Padded(n, width)) == Finite(n)
    decreases width
  {
    if width <= |Decimal(n)| {
      ToNumberDecimal(n);
    } else {
      ToNumberPadded(n, width - 1);
      ToNumberLeadingZero(Padded(n, width - 1));
    }
  }

  /** Splitting "a-b-c" on "-", for digit strings a, b and c, reads back their numbers. */
  lemma SplitNumbersOfThree(a: string, b: string, c: string, sep: char)
    requires AllDigits(a) && AllDigits(b) && AllDigits(c) && !IsDigit(sep)
    ensures SplitNumbers3(a + [sep] + b + [sep] + c, sep) == (ToNumber(a), ToNumber(b), ToNumber(c))
  {
    var parts := [a, b, c];
    assert sep !in a && sep !in b && sep !in c;
    assert Join(parts, sep) == a + [sep] + b + [sep] + c by {
      assert parts[1..] == [b, c];
      assert Join([b, c], sep) == b + [sep] + c;
    }
    SplitJoin(parts, sep);
  }

  /** Splitting "a:b" on ":", for digit strings a and b, reads back their numbers and no third piece. */
  lemma SplitNumbersOfTwo(a: string, b: string, sep: char)
    requires AllDigits(a) && AllDigits(b) && !IsDigit(sep)
    ensures SplitNumbers3(a + [sep] + b, sep) == (ToNumber(a), ToNumber(b), NaN)
  {
    var parts := [a, b];
    assert sep !in a && sep !in b;
    assert Join(parts, sep) == a + [sep] + b by {
      assert parts[1..] == [b];
    }
    SplitJoin(parts, sep);
  }

  /** The numbers of the first three pieces of s.split(sep); a missing piece reads as NaN (undefined). */
  function SplitNumbers3(s: string, sep: char): (r: (Numeric, Numeric, Numeric))
    ensures var parts := Split(s, sep);
            r.0 == ToNumber(parts[0]) &&
            r.1 == (if |parts| > 1 then ToNumber(parts[1]) else NaN) &&
            r.2 == (if |parts| > 2 then ToNumber(parts[2]) else NaN)
  {
    var parts := Split(s, sep);
    (ToNumber(parts[0]),
     if |parts| > 1 then ToNumber(parts[1]) else NaN,
     if |parts| > 2 then ToNumber(parts[2]) else NaN)
  }
}
