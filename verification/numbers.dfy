/** Decimal text of integers (`ToString()` / string interpolation) and `int.Parse`,
    plus the "AxB" pair format shared by the size and point converters. */
module Numbers {
  import opened Wrappers
  import opened Types
  import Text

  predicate IsDigit(c: char) {
    '0' <= c <= '9'
  }

  predicate AllDigits(s: string) {
    forall i :: 0 <= i < |s| ==> IsDigit(s[i])
  }

  function DigitChar(d: int): (c: char)
    requires 0 <= d < 10
    ensures IsDigit(c) && c as int - '0' as int == d
  {
    ('0' as int + d) as char
  }

  /** The decimal digits of a non-negative number, without leading zeros. */
  function DigitsText(n: nat): (s: string)
    ensures 1 <= |s| && AllDigits(s)
    ensures n < 10 ==> s == [DigitChar(n)]
    decreases n
  {
    if n < 10 then [DigitChar(n)] else DigitsText(n / 10) + [DigitChar(n % 10)]
  }

  /** The value of a string of decimal digits. */
  function DigitsValue(s: string): nat
    requires AllDigits(s)
  {
    if |s| == 0 then 0 else DigitsValue(s[..|s| - 1]) * 10 + (s[|s| - 1] as int - '0' as int)
  }

  /** `n.ToString()`: a '-' for negative numbers, then the digits of the magnitude. */
  function IntText(n: int): string {
    if n < 0 then "-" + DigitsText(-n) else DigitsText(n)
  }

  /** `int.Parse(s)`: an optional sign and at least one digit (FormatException otherwise),
      whose value must fit in an `int` (OverflowException otherwise). */
  function ParseInt(s: string): (r: Result<Int32, Error>)
    ensures r.Failure? ==> r.error in {Format, Overflow}
  {
    var signed := |s| > 0 && (s[0] == '-' || s[0] == '+');
    var digits := if signed then s[1..] else s;
    if |digits| == 0 || !AllDigits(digits) then Failure(Format)
    else
      var v: int := if signed && s[0] == '-' then -(DigitsValue(digits) as int) else DigitsValue(digits);
      if -0x8000_0000 <= v < 0x8000_0000 then Success(v) else Failure(Overflow)
  }

  lemma {:induction false} DigitsValueOfText(n: nat)
    ensures DigitsValue(DigitsText(n)) == n
    decreases n
  {
    if n >= 10 {
      var s := DigitsText(n);
      DigitsValueOfText(n / 10);
      assert s[..|s| - 1] == DigitsText(n / 10);
    }
  }

  /** `int.Parse` reads back every `int` that `ToString` wrote. */
  lemma ParseIntText(n: Int32)
    ensures ParseInt(IntText(n)) == Success(n)
  {
    var m: nat := if n < 0 then -(n as int) else n;
    DigitsValueOfText(m);
    if n < 0 {
      assert IntText(n)[1..] == DigitsText(m);
    } else {
      assert IntText(n)[0] != '-' && IntText(n)[0] != '+';
    }
  }

  /** Numbers below 1000 have at most three digits. */
  lemma DigitsTextShort(n: nat)
    requires n < 1000
    ensures |DigitsText(n)| <= 3
  {
    if n >= 10 {
      assert n / 10 < 100;
      if n / 10 >= 10 {
        assert n / 10 / 10 < 10;
      }
    }
  }

  /** No decimal text holds a separator character of the formats built on it. */
  lemma IntTextPlain(n: int)
    ensures forall i :: 0 <= i < |IntText(n)| ==> IntText(n)[i] !in {'x', ';', '\r'}
  {
    var m: nat := if n < 0 then -n else n;
    assert AllDigits(DigitsText(m));
  }

  /** The "{a}x{b}" text written for a Size or a Point. */
  function PairText(a: int, b: int): string {
    IntText(a) + "x" + IntText(b)
  }

  /** Reading "{a}x{b}": split on 'x', parse field [0] and then field [1];
      a missing field [1] is an IndexOutOfRangeException, later fields are ignored. */
  function ParsePair(s: string): (r: Result<(Int32, Int32), Error>)
  {
    var parts := Text.Split(s, "x");
    var a :- ParseInt(parts[0]);
    if |parts| < 2 then Failure(IndexOutOfRange)
    else
      var b :- ParseInt(parts[1]);
      Success((a, b))
  }

  /** Reading a written pair gives the same two numbers. */
  lemma ParsePairText(a: Int32, b: Int32)
    ensures ParsePair(PairText(a, b)) == Success((a, b))
  {
    IntTextPlain(a);
    IntTextPlain(b);
    assert PairText(a, b) == Text.Join([IntText(a), IntText(b)], "x");
    Text.SplitJoin([IntText(a), IntText(b)], "x");
    ParseIntText(a);
    ParseIntText(b);
  }

  /** Text without an 'x' has no field [1]: it fails whatever it holds. */
  lemma ParsePairNeedsSeparator(s: string)
    requires forall i :: 0 <= i < |s| ==> s[i] != 'x'
    ensures ParsePair(s).Failure?
  {
    assert Text.Join([s], "x") == s;
    Text.SplitJoin([s], "x");
  }

  /** Fields after the second are ignored. */
  lemma ParsePairIgnoresExtra(a: string, b: string, rest: string)
    requires forall i :: 0 <= i < |a| ==> a[i] != 'x'
    requires forall i :: 0 <= i < |b| ==> b[i] != 'x'
    ensures ParsePair(a + "x" + b + "x" + rest) == ParsePair(a + "x" + b)
  {
    Text.SplitFromPlain(a, "x" + b + "x" + rest, "x", "");
    Text.SplitFromPlain(a, "x" + b, "x", "");
    assert a + "x" + b + "x" + rest == a + ("x" + b + "x" + rest);
    assert a + "x" + b == a + ("x" + b);
    var s1 := "x" + b + "x" + rest;
    var s2 := "x" + b;
    assert "x" <= s1 && s1[1..] == b + ("x" + rest);
    assert "x" <= s2 && s2[1..] == b + "";
    Text.SplitFromPlain(b, "x" + rest, "x", "");
    Text.SplitFromPlain(b, "", "x", "");
    assert "" + a == a && "" + b == b;
    var t := "x" + rest;
    assert "x" <= t && t[1..] == rest;
  }
}
