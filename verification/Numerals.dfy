/** Positional numerals: the canonical numeral of a number in a base from 2 to 16, and how numerals are read. */
module Numerals {
  import opened Arithmetic

  const DIGIT_CHARS := "0123456789abcdef"

  function Digit(d: nat): char
    requires d < 16
  {
    DIGIT_CHARS[d]
  }

  /** The number a character stands for, 16 for none. */
  function DigitValue(c: char): nat {
    if '0' <= c <= '9' then c as int - '0' as int
    else if 'a' <= c <= 'f' then c as int - 'a' as int + 10
    else 16
  }

  lemma DigitRoundTrip(d: nat)
    requires d < 16
    ensures DigitValue(Digit(d)) == d
  {
  }

  lemma DecimalDigit(d: nat)
    requires d < 10
    ensures Digit(d) == ('0' as int + d) as char
  {
  }

  function Numeral(n: nat, b: nat): (s: string)
    requires 2 <= b <= 16
    ensures |s| >= 1
    decreases n
  {
    if n < b then [Digit(n)] else Numeral(n / b, b) + [Digit(n % b)]
  }

  /** The value of a string of digits. */
  function ValueOf(s: string, b: nat): nat {
    if s == "" then 0 else ValueOf(s[..|s| - 1], b) * b + DigitValue(s[|s| - 1])
  }

  predicate IsNumeral(s: string, b: nat) {
    s != "" && forall i :: 0 <= i < |s| ==> DigitValue(s[i]) < b
  }

  lemma ValueSnoc(s: string, c: char, b: nat)
    ensures ValueOf(s + [c], b) == ValueOf(s, b) * b + DigitValue(c)
  {
    assert (s + [c])[..|s|] == s;
  }

  lemma SingleDigit(d: nat, b: nat)
    requires d < b <= 16
    ensures ValueOf([Digit(d)], b) == d && IsNumeral([Digit(d)], b)
  {
    DigitRoundTrip(d);
    ValueSnoc("", Digit(d), b);
    assert "" + [Digit(d)] == [Digit(d)];
  }

  lemma SnocDigit(s: string, d: nat, b: nat)
    requires d < b <= 16 && IsNumeral(s, b)
    ensures ValueOf(s + [Digit(d)], b) == ValueOf(s, b) * b + d && IsNumeral(s + [Digit(d)], b)
  {
    DigitRoundTrip(d);
    ValueSnoc(s, Digit(d), b);
  }

  /** Reading the numeral of n gives n back. */
  lemma {:induction false} NumeralReadsBack(n: nat, b: nat)
    requires 2 <= b <= 16
    ensures ValueOf(Numeral(n, b), b) == n && IsNumeral(Numeral(n, b), b)
    decreases n
  {
    if n < b {
      SingleDigit(n, b);
    } else {
      var h, d := n / b, n % b;
      assert n == h * b + d;
      NumeralReadsBack(h, b);
      SnocDigit(Numeral(h, b), d, b);
    }
  }

  /** No leading zero, except in the numeral of zero. */
  lemma {:induction false} NumeralCanonical(n: nat, b: nat)
    requires 2 <= b <= 16
    ensures n > 0 ==> Numeral(n, b)[0] != '0'
    ensures n == 0 ==> Numeral(n, b) == "0"
    decreases n
  {
    if n >= b {
      QuotientPositive(n, b);
      NumeralCanonical(n / b, b);
    } else {
      DigitRoundTrip(n);
    }
  }

  lemma QuotientPositive(n: nat, b: nat)
    requires n >= b > 0
    ensures n / b > 0
  {
    ModUnique(n, n / b, n % b, b);
    MultipleBounds(n / b, b);
  }

  /** A decimal point to the left: appending a digit divides back out. */
  lemma AppendDigit(h: nat, d: nat, b: nat)
    requires 2 <= b <= 16 && d < b && h > 0
    ensures Numeral(h * b + d, b) == Numeral(h, b) + [Digit(d)]
  {
    ModUnique(h * b + d, h, d, b);
    MultipleBounds(h, b);
  }

  function Zeros(n: nat): (s: string)
    ensures |s| == n
  {
    if n == 0 then "" else Zeros(n - 1) + "0"
  }

  /** Leading zeros do not change the value. */
  lemma {:induction false} LeadingZeros(k: nat, s: string, b: nat)
    ensures ValueOf(Zeros(k) + s, b) == ValueOf(s, b)
    decreases |s|, k
  {
    if s != "" {
      var t := s[..|s| - 1];
      LeadingZeros(k, t, b);
      ValueSnoc(Zeros(k) + t, s[|s| - 1], b);
      assert Zeros(k) + s == Zeros(k) + t + [s[|s| - 1]];
    } else if k > 0 {
      LeadingZeros(k - 1, "", b);
      ValueSnoc(Zeros(k - 1), '0', b);
      assert Zeros(k) + "" == Zeros(k - 1) + "0" && Zeros(k - 1) + "" == Zeros(k - 1);
    } else {
      assert Zeros(0) + "" == "";
    }
  }

  lemma DigitOfChar(c: char, b: nat)
    requires 2 <= b <= 16 && DigitValue(c) < b
    ensures Digit(DigitValue(c)) == c
  {
  }

  lemma OneCharNumeral(c: char, b: nat)
    requires 2 <= b <= 16 && DigitValue(c) < b
    ensures ValueOf([c], b) == DigitValue(c) && Numeral(DigitValue(c), b) == [c]
  {
    DigitOfChar(c, b);
    ValueSnoc("", c, b);
    assert "" + [c] == [c];
  }

  /** The numeral of a number is the only string of digits with that value and no leading zero. */
  lemma {:induction false} NumeralUnique(s: string, b: nat)
    requires 2 <= b <= 16 && IsNumeral(s, b) && (|s| > 1 ==> s[0] != '0')
    ensures s == Numeral(ValueOf(s, b), b)
    decreases |s|
  {
    var k := |s| - 1;
    if k == 0 {
      OneCharNumeral(s[0], b);
      assert s == [s[0]];
    } else {
      var t, c := s[..k], s[k];
      assert s == t + [c];
      NumeralUnique(t, b);
      PositiveValue(t, b);
      DigitOfChar(c, b);
      ValueSnoc(t, c, b);
      AppendDigit(ValueOf(t, b), DigitValue(c), b);
    }
  }

  lemma {:induction false} PositiveValue(s: string, b: nat)
    requires 2 <= b <= 16 && IsNumeral(s, b) && s[0] != '0'
    ensures ValueOf(s, b) > 0
    decreases |s|
  {
    var k := |s| - 1;
    if k == 0 {
      ValueSnoc("", s[0], b);
      assert "" + [s[0]] == s;
      DigitOfChar(s[0], b);
    } else {
      PositiveValue(s[..k], b);
      MultipleBounds(ValueOf(s[..k], b), b);
    }
  }

  // ---------- decimal length ----------

  function Pow10(k: nat): (p: nat)
    ensures p >= 1
  {
    if k == 0 then 1 else 10 * Pow10(k - 1)
  }

  /** A number has k decimal digits exactly when it lies between the powers of ten. */
  lemma {:induction false} NumeralLength(n: nat, k: nat)
    requires k >= 1
    ensures |Numeral(n, 10)| == k <==> (k == 1 || Pow10(k - 1) <= n) && n < Pow10(k)
    decreases n
  {
    if n < 10 {
      if k > 1 { PowerAtLeastTen(k - 1); }
    } else if k > 1 {
      NumeralLength(n / 10, k - 1);
    } else {
      assert Pow10(1) == 10;
    }
  }

  lemma {:induction false} PowerAtLeastTen(k: nat)
    requires k >= 1
    ensures Pow10(k) >= 10
  {
    if k > 1 { PowerAtLeastTen(k - 1); } else { assert Pow10(1) == 10; }
  }
}
