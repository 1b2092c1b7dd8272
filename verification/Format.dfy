/** Digit counting and decimal formatting of lib/util/format.h. */
module Format {
  import opened Arithmetic
  import opened Numerals

  type UInt64 = x: nat | x < 0x1_0000_0000_0000_0000

  // ---------- counting digits ----------

  const POWERS_OF_10_64: seq<nat> := [0, 10, 100, 1000, 10000,
    100000, 1000000, 10000000, 100000000, 1000000000,
    10000000000, 100000000000, 1000000000000, 10000000000000,
    100000000000000, 1000000000000000, 10000000000000000, 100000000000000000, 1000000000000000000, 10000000000000000000]

  /** n | 1 */
  function WithLowBit(n: nat): nat {
    if n % 2 == 0 then n + 1 else n
  }

  /** The approximation of the decimal logarithm: bit length times 1233 / 4096. */
  function Estimate(length: nat): nat {
    length * 1233 / 4096
  }

  /** The bit trick of `count_digits`; 64 minus the number of leading zeros is the bit length. */
  function CountDigits(n: UInt64): nat {
    EstimateInTable(n);
    var t := Estimate(BitLength(WithLowBit(n)));
    t - (if n < POWERS_OF_10_64[t] then 1 else 0) + 1
  }

  lemma LengthAtMost64(n: nat)
    requires 0 < n < 0x1_0000_0000_0000_0000
    ensures 1 <= BitLength(n) <= 64
  {
    BitLengthBounds(n);
    assert Pow2(64) == 0x1_0000_0000_0000_0000 by { Pow2Table(); Pow2Add(8, 8); Pow2Add(16, 16); Pow2Add(32, 32); }
    Pow2Less(BitLength(n) - 1, 64);
  }

  lemma EstimateInTable(n: UInt64)
    ensures Estimate(BitLength(WithLowBit(n))) < |POWERS_OF_10_64|
    ensures Estimate(BitLength(WithLowBit(n))) == 0 ==> n >= POWERS_OF_10_64[0]
  {
    LengthAtMost64(WithLowBit(n));
  }

  lemma PowersOfTen()
    ensures Pow10(0) == 1
    ensures Pow10(1) == 10
    ensures Pow10(2) == 100
    ensures Pow10(3) == 1000
    ensures Pow10(4) == 10000
    ensures Pow10(5) == 100000
    ensures Pow10(6) == 1000000
    ensures Pow10(7) == 10000000
    ensures Pow10(8) == 100000000
    ensures Pow10(9) == 1000000000
    ensures Pow10(10) == 10000000000
    ensures Pow10(11) == 100000000000
    ensures Pow10(12) == 1000000000000
    ensures Pow10(13) == 10000000000000
    ensures Pow10(14) == 100000000000000
    ensures Pow10(15) == 1000000000000000
    ensures Pow10(16) == 10000000000000000
    ensures Pow10(17) == 100000000000000000
    ensures Pow10(18) == 1000000000000000000
    ensures Pow10(19) == 10000000000000000000
    ensures Pow10(20) == 100000000000000000000
  {
    assert Pow10(4) == 10000;
    assert Pow10(8) == 100000000;
    assert Pow10(12) == 1000000000000;
    assert Pow10(16) == 10000000000000000;
  }

  lemma PowersOfTwo()
    ensures Pow2(3) == 8
    ensures Pow2(6) == 64
    ensures Pow2(9) == 512
    ensures Pow2(13) == 8192
    ensures Pow2(16) == 65536
    ensures Pow2(19) == 524288
    ensures Pow2(23) == 8388608
    ensures Pow2(26) == 67108864
    ensures Pow2(29) == 536870912
    ensures Pow2(33) == 8589934592
    ensures Pow2(36) == 68719476736
    ensures Pow2(39) == 549755813888
    ensures Pow2(43) == 8796093022208
    ensures Pow2(46) == 70368744177664
    ensures Pow2(49) == 562949953421312
    ensures Pow2(53) == 9007199254740992
    ensures Pow2(56) == 72057594037927936
    ensures Pow2(59) == 576460752303423488
    ensures Pow2(63) == 9223372036854775808
    ensures Pow2(64) == 18446744073709551616
  {
    Pow2Table();
    Pow2Add(8, 1); Pow2Add(8, 5); Pow2Add(8, 8); Pow2Add(16, 3); Pow2Add(16, 7); Pow2Add(16, 8); Pow2Add(24, 2);
    Pow2Add(24, 5); Pow2Add(24, 8); Pow2Add(32, 1); Pow2Add(32, 4); Pow2Add(32, 7); Pow2Add(32, 8); Pow2Add(40, 3);
    Pow2Add(40, 6); Pow2Add(40, 8);
    Pow2Add(48, 1); Pow2Add(48, 5); Pow2Add(48, 8); Pow2Add(56, 3); Pow2Add(56, 7); Pow2Add(56, 8);
  }

  /** The last bit length with estimate t. */
  function Top(t: nat): nat
    requires t < 20
  {
    match t
    case 0 => 3
    case 1 => 6
    case 2 => 9
    case 3 => 13
    case 4 => 16
    case 5 => 19
    case 6 => 23
    case 7 => 26
    case 8 => 29
    case 9 => 33
    case 10 => 36
    case 11 => 39
    case 12 => 43
    case 13 => 46
    case 14 => 49
    case 15 => 53
    case 16 => 56
    case 17 => 59
    case 18 => 63
    case _ => 64
  }

  /** Between two consecutive tops, the estimate is right or one too small. */
  lemma TopBounds(t: nat)
    requires t < 20
    ensures Pow2(Top(t)) <= Pow10(t + 1) && (t >= 1 ==> Pow10(t - 1) <= Pow2(Top(t - 1)))
  {
    PowersOfTen();
    PowersOfTwo();
  }

  lemma EstimateRange(length: nat)
    requires 1 <= length <= 64
    ensures Estimate(length) < 20 && length <= Top(Estimate(length))
    ensures Estimate(length) >= 1 ==> length > Top(Estimate(length) - 1)
  {
  }

  lemma EstimateBelow(t: nat, length: nat)
    requires 1 <= t < 20 && length > Top(t - 1)
    ensures length >= 4 && Pow10(t - 1) <= Pow2(length - 1)
  {
    TopBounds(t);
    Pow2Mono(Top(t - 1), length - 1);
  }

  lemma EstimateBounds(length: nat)
    requires 1 <= length <= 64
    ensures var t := Estimate(length);
            t < 20 && Pow2(length) <= Pow10(t + 1) && (t >= 1 ==> length >= 4 && Pow10(t - 1) <= Pow2(length - 1))
  {
    var t := Estimate(length);
    EstimateRange(length);
    TopBounds(t);
    Pow2Mono(length, Top(t));
    if t >= 1 { EstimateBelow(t, length); }
  }

  lemma LowBitBounds(n: nat, e: nat, f: nat)
    requires 2 * e <= WithLowBit(n) < f
    ensures 2 * e <= n < f
  {
  }

  lemma TableIsPower(t: nat)
    requires 1 <= t < 20
    ensures POWERS_OF_10_64[t] == Pow10(t)
  {
    PowersOfTen();
  }

  /** The bit trick counts the decimal digits. */
  lemma CountDigitsCorrect(n: UInt64)
    ensures CountDigits(n) == |Numeral(n, 10)|
  {
    var m := WithLowBit(n);
    var length := BitLength(m);
    var t := Estimate(length);
    LengthAtMost64(m);
    BitLengthBounds(m);
    EstimateBounds(length);
    if t == 0 {
      assert Pow10(1) == 10;
      NumeralLength(n, 1);
    } else {
      LowBitBounds(n, Pow2(length - 2), Pow2(length));
      TableIsPower(t);
      NumeralLength(n, t);
      NumeralLength(n, t + 1);
    }
  }

  lemma FourDigits(n: nat)
    requires n >= 10000
    ensures |Numeral(n, 10)| == |Numeral(n / 10000, 10)| + 4
  {
    var a := n / 10;
    var b := a / 10;
    var c := b / 10;
    assert c >= 10 && c / 10 == n / 10000;
    assert |Numeral(n, 10)| == |Numeral(a, 10)| + 1;
    assert |Numeral(a, 10)| == |Numeral(b, 10)| + 1;
    assert |Numeral(b, 10)| == |Numeral(c, 10)| + 1;
  }

  /** The fallback `count_digits`, four digits a round. */
  method CountDigitsByDivision(value: UInt64) returns (count: nat)
    ensures count == |Numeral(value, 10)| == CountDigits(value)
  {
    var n: nat := value;
    count := 1;
    while n >= 10000
      invariant count - 1 + |Numeral(n, 10)| == |Numeral(value, 10)|
    {
      FourDigits(n);
      n := n / 10000;
      count := count + 4;
    }
    SmallLengths(n);
    if n < 10 {
    } else if n < 100 {
      count := count + 1;
    } else if n < 1000 {
      count := count + 2;
    } else {
      count := count + 3;
    }
    CountDigitsCorrect(value);
  }

  lemma SmallLengths(n: nat)
    requires n < 10000
    ensures |Numeral(n, 10)| == if n < 10 then 1 else if n < 100 then 2 else if n < 1000 then 3 else 4
  {
  }

  // ---------- writing digits, two at a time ----------

  /** The table of digit pairs, ten pairs a line. */
  function DigitLine(t: nat): (s: string)
    requires t < 10
    ensures |s| == 20
  {
    match t
    case 0 => "00010203040506070809"
    case 1 => "10111213141516171819"
    case 2 => "20212223242526272829"
    case 3 => "30313233343536373839"
    case 4 => "40414243444546474849"
    case 5 => "50515253545556575859"
    case 6 => "60616263646566676869"
    case 7 => "70717273747576777879"
    case 8 => "80818283848586878889"
    case _ => "90919293949596979899"
  }

  lemma Line0(k: nat)
    requires k < 10
    ensures DigitLine(0)[2 * k] as int == 48 && DigitLine(0)[2 * k + 1] as int == 48 + k
  {
  }

  lemma Line1(k: nat)
    requires k < 10
    ensures DigitLine(1)[2 * k] as int == 49 && DigitLine(1)[2 * k + 1] as int == 48 + k
  {
  }

  lemma Line2(k: nat)
    requires k < 10
    ensures DigitLine(2)[2 * k] as int == 50 && DigitLine(2)[2 * k + 1] as int == 48 + k
  {
  }

  lemma Line3(k: nat)
    requires k < 10
    ensures DigitLine(3)[2 * k] as int == 51 && DigitLine(3)[2 * k + 1] as int == 48 + k
  {
  }

  lemma Line4(k: nat)
    requires k < 10
    ensures DigitLine(4)[2 * k] as int == 52 && DigitLine(4)[2 * k + 1] as int == 48 + k
  {
  }

  lemma Line5(k: nat)
    requires k < 10
    ensures DigitLine(5)[2 * k] as int == 53 && DigitLine(5)[2 * k + 1] as int == 48 + k
  {
  }

  lemma Line6(k: nat)
    requires k < 10
    ensures DigitLine(6)[2 * k] as int == 54 && DigitLine(6)[2 * k + 1] as int == 48 + k
  {
  }

  lemma Line7(k: nat)
    requires k < 10
    ensures DigitLine(7)[2 * k] as int == 55 && DigitLine(7)[2 * k + 1] as int == 48 + k
  {
  }

  lemma Line8(k: nat)
    requires k < 10
    ensures DigitLine(8)[2 * k] as int == 56 && DigitLine(8)[2 * k + 1] as int == 48 + k
  {
  }

  lemma Line9(k: nat)
    requires k < 10
    ensures DigitLine(9)[2 * k] as int == 57 && DigitLine(9)[2 * k + 1] as int == 48 + k
  {
  }

  lemma LineAt(t: nat, k: nat)
    requires t < 10 && k < 10
    ensures DigitLine(t)[2 * k] as int == 48 + t && DigitLine(t)[2 * k + 1] as int == 48 + k
  {
    match t
    case 0 => Line0(k);
    case 1 => Line1(k);
    case 2 => Line2(k);
    case 3 => Line3(k);
    case 4 => Line4(k);
    case 5 => Line5(k);
    case 6 => Line6(k);
    case 7 => Line7(k);
    case 8 => Line8(k);
    case _ => Line9(k);
  }

  /** Looks up the pair for i, at positions 2i and 2i + 1 of the table. */
  method Pair(i: nat) returns (tens: char, units: char)
    requires i < 100
    ensures tens == Digit(i / 10) && units == Digit(i % 10)
  {
    LineAt(i / 10, i % 10);
    DecimalDigit(i / 10);
    DecimalDigit(i % 10);
    var line := DigitLine(i / 10);
    tens, units := line[2 * (i % 10)], line[2 * (i % 10) + 1];
  }

  /** The last two digits of a longer numeral. */
  lemma LastTwo(n: nat)
    requires n >= 100
    ensures Numeral(n, 10) == Numeral(n / 100, 10) + [Digit(n % 100 / 10), Digit(n % 100 % 10)]
  {
    var a := n / 10;
    assert a / 10 == n / 100 && a % 10 == n % 100 / 10 && n % 10 == n % 100 % 10 && a >= 10;
    assert Numeral(a, 10) == Numeral(n / 100, 10) + [Digit(n % 100 / 10)];
    assert Numeral(n, 10) == Numeral(a, 10) + [Digit(n % 10)];
  }

  lemma FirstDigits(n: nat)
    requires n < 100
    ensures Numeral(n, 10) == if n < 10 then [Digit(n)] else [Digit(n / 10), Digit(n % 10)]
  {
    if n >= 10 { assert Numeral(n / 10, 10) == [Digit(n / 10)]; }
  }

  /** What is written so far completes the digits of what is left. */
  ghost predicate Completes(n: nat, value: nat, written: string) {
    Numeral(n, 10) == Numeral(value, 10) + written
  }

  lemma CompletesStep(n: nat, value: nat, written: string, pair: string)
    requires Completes(n, value, written) && value >= 100 && pair == [Digit(value % 100 / 10), Digit(value % 100 % 10)]
    ensures Completes(n, value / 100, pair + written) && |Numeral(value, 10)| == |Numeral(value / 100, 10)| + 2
  {
    LastTwo(value);
    assert Numeral(value / 100, 10) + pair + written == Numeral(value / 100, 10) + (pair + written);
  }

  /** Two digits at `at`, in front of what lies between them and `end`. */
  method WritePair(buffer: array<char>, at: nat, i: nat, ghost end: nat) returns (ghost pair: string)
    requires i < 100 && at + 2 <= end <= buffer.Length
    modifies buffer
    ensures pair == [Digit(i / 10), Digit(i % 10)]
    ensures buffer[at..end] == pair + old(buffer[at + 2..end]) && buffer[..at] == old(buffer[..at])
    ensures buffer[end..] == old(buffer[end..])
  {
    var tens, units := Pair(i);
    buffer[at + 1] := units;
    buffer[at] := tens;
    pair := [tens, units];
  }

  /** The source's `format_decimal`: writes exactly the digits asked for and nothing else. */
  method FormatDecimal(buffer: array<char>, value0: UInt64, count: nat)
    requires count == |Numeral(value0, 10)| <= buffer.Length
    modifies buffer
    ensures buffer[..count] == Numeral(value0, 10)
    ensures buffer[count..] == old(buffer[count..])
  {
    var value: nat := value0;
    var left: nat := count;
    assert buffer[left..count] == "";
    ghost var pair;
    while value >= 100
      invariant left == |Numeral(value, 10)| && left <= count && Completes(value0, value, buffer[left..count])
      invariant buffer[count..] == old(buffer[count..])
    {
      ghost var written := buffer[left..count];
      CompletesStep(value0, value, written, [Digit(value % 100 / 10), Digit(value % 100 % 10)]);
      pair := WritePair(buffer, left - 2, value % 100, count);
      value := value / 100;
      left := left - 2;
    }
    FirstDigits(value);
    ghost var written := buffer[left..count];
    if value < 10 {
      DecimalDigit(value);
      buffer[0] := ('0' as int + value) as char;
      assert buffer[..count] == [Digit(value)] + written;
    } else {
      pair := WritePair(buffer, 0, value, count);
      assert buffer[..count] == pair + written;
    }
  }

  // ---------- FormatInt ----------

  /** The fast integer formatter: writes backwards from the end of a fixed buffer. */
  class FormatInt {
    const buffer: array<char>
    var str: nat

    /** Twenty digits, a sign and a terminator. */
    ghost predicate Valid()
      reads this
    {
      buffer.Length == 22 && str <= 21
    }

    /** The characters between `data()` and the terminator. */
    ghost function Text(): string
      reads this, buffer
      requires Valid()
    {
      buffer[str..21]
    }

    /** Formats value in reverse. */
    method WriteDecimal(value0: UInt64)
      requires buffer.Length == 22
      modifies this, buffer
      ensures Valid() && str >= 1 && Text() == Numeral(value0, 10)
    {
      LongestNumeral(value0);
      var value: nat := value0;
      var end: nat := 21;
      assert buffer[end..21] == "";
      ghost var pair;
      while value >= 100
        invariant end == 21 - |Numeral(value0, 10)| + |Numeral(value, 10)| <= 21
        invariant Completes(value0, value, buffer[end..21])
      {
        ghost var written := buffer[end..21];
        CompletesStep(value0, value, written, [Digit(value % 100 / 10), Digit(value % 100 % 10)]);
        pair := WritePair(buffer, end - 2, value % 100, 21);
        value := value / 100;
        end := end - 2;
      }
      FirstDigits(value);
      ghost var written := buffer[end..21];
      if value < 10 {
        DecimalDigit(value);
        end := end - 1;
        buffer[end] := ('0' as int + value) as char;
        assert buffer[end..21] == [Digit(value)] + written;
      } else {
        end := end - 2;
        pair := WritePair(buffer, end, value, 21);
        assert buffer[end..21] == pair + written;
      }
      str := end;
    }

    /** From an unsigned number. */
    constructor Unsigned(value: UInt64)
      ensures Valid() && Text() == Numeral(value, 10)
    {
      buffer := new char[22];
      str := 21;
      new;
      WriteDecimal(value);
    }

    /** From a signed number, the most negative one included. */
    constructor Signed(value: int)
      requires -0x8000_0000_0000_0000 <= value < 0x8000_0000_0000_0000
      ensures Valid() && Text() == if value < 0 then "-" + Numeral(-value, 10) else Numeral(value, 10)
    {
      buffer := new char[22];
      str := 21;
      new;
      WriteDecimal(Magnitude(value));
      if value < 0 {
        ghost var digits := Text();
        str := str - 1;
        buffer[str] := '-';
        assert Text() == ['-'] + digits;
      }
    }

    method Size() returns (n: nat)
      requires Valid()
      ensures n == |Text()|
    {
      n := 21 - str;
    }
  }

  /** The unsigned view of a signed number, negated modulo 2^64 when the number is negative. */
  function Magnitude(value: int): (m: UInt64)
    requires -0x8000_0000_0000_0000 <= value < 0x8000_0000_0000_0000
    ensures m == if value < 0 then -value else value
  {
    var m := value % 0x1_0000_0000_0000_0000;
    if value < 0 then (0 - m) % 0x1_0000_0000_0000_0000 else m
  }

  lemma LongestNumeral(n: UInt64)
    ensures |Numeral(n, 10)| <= 20
  {
    CountDigitsCorrect(n);
    EstimateInTable(n);
  }
}
