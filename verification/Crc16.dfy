/** CRC-16/XMODEM as lib/util/crc16.cpp computes it, against polynomial division by x^16 + x^12 + x^5 + 1. */
module Crc16 {
  import opened Arithmetic
  import opened BitStrings
  import opened Gf2
  import opened Sealing

  // ---------- division by the generator ----------

  /** x^16 + x^12 + x^5 + 1. */
  const GENERATOR: nat := 0x11021

  /** The product of the generator and q. */
  function Multiple(q: nat): nat {
    if q == 0 then 0 else Xor(2 * Multiple(q / 2), Constant(q))
  }

  /** The generator times the constant term of q. */
  function Constant(q: nat): nat {
    if q % 2 == 1 then GENERATOR else 0
  }

  /** m = q * generator + r, with r of degree below 16. */
  predicate Divides(m: nat, q: nat, r: nat) {
    r < 0x10000 && m == Xor(Multiple(q), r)
  }

  lemma MultipleStep(q: nat)
    ensures Multiple(q) == Xor(2 * Multiple(q / 2), Constant(q))
  {
    if q == 0 { XorZero(0); }
  }

  lemma ConstantXor(p: nat, q: nat)
    ensures Constant(Xor(p, q)) == Xor(Constant(p), Constant(q))
  {
    XorDigit(p, q);
    var g := GENERATOR;
    XorSelf(g);
    XorZero(g);
  }

  lemma {:induction false} MultipleXor(p: nat, q: nat)
    ensures Multiple(Xor(p, q)) == Xor(Multiple(p), Multiple(q))
    decreases p
  {
    if p == 0 || q == 0 {
      XorZero(p);
      XorZero(q);
      XorZero(Multiple(p));
    } else {
      MultipleXor(p / 2, q / 2);
      assert Xor(p, q) / 2 == Xor(p / 2, q / 2) by { XorDigit(p, q); }
      ConstantXor(p, q);
      MultipleStep(Xor(p, q));
      XorDouble(Multiple(p / 2), Multiple(q / 2));
      XorSwap(2 * Multiple(p / 2), Constant(p), 2 * Multiple(q / 2), Constant(q));
    }
  }

  lemma MultipleTwice(q: nat)
    ensures Multiple(2 * q) == 2 * Multiple(q)
  {
    Halve(q, 0);
    MultipleStep(2 * q);
    XorZero(2 * Multiple(q));
  }

  lemma {:induction false} MultipleRaise(q: nat, k: nat)
    ensures Multiple(Raise(q, k)) == Raise(Multiple(q), k)
  {
    if k > 0 {
      MultipleRaise(q, k - 1);
      MultipleTwice(Raise(q, k - 1));
    }
  }

  lemma MultipleScale(q: nat, k: nat)
    ensures Multiple(q * Pow2(k)) == Multiple(q) * Pow2(k)
  {
    MultipleRaise(q, k);
    RaiseIsProduct(q, k);
    RaiseIsProduct(Multiple(q), k);
  }

  /** A nonzero multiple has degree 16 or more. */
  lemma {:induction false} MultipleLarge(q: nat)
    requires q > 0
    ensures Multiple(q) >= 0x10000
  {
    if q > 1 {
      MultipleLarge(q / 2);
      assert Pow2(17) == 0x20000 by { Pow2Table(); Pow2Add(8, 9); Pow2Add(8, 1); }
      var m := 2 * Multiple(q / 2);
      if q % 2 == 1 { XorAbove(m, GENERATOR, 17); } else { XorZero(m); }
    } else {
      XorZero(GENERATOR);
    }
  }

  lemma Small(a: nat, b: nat)
    requires a < 0x10000 && b < 0x10000
    ensures Xor(a, b) < 0x10000
  {
    assert Pow2(16) == 0x10000 by { Pow2Table(); Pow2Add(8, 8); }
    XorBelow(a, b, 16);
  }

  lemma DivideXor(m: nat, q: nat, r: nat, m': nat, q': nat, r': nat)
    requires Divides(m, q, r) && Divides(m', q', r')
    ensures Divides(Xor(m, m'), Xor(q, q'), Xor(r, r'))
  {
    MultipleXor(q, q');
    XorSwap(Multiple(q), r, Multiple(q'), r');
    Small(r, r');
  }

  /** The remainder is determined. */
  lemma RemainderUnique(m: nat, q: nat, r: nat, q': nat, r': nat)
    requires Divides(m, q, r) && Divides(m, q', r')
    ensures r == r'
  {
    DivideXor(m, q, r, m, q', r');
    XorSelf(m);
    var d, e := Xor(q, q'), Xor(r, r');
    XorIsZero(Multiple(d), e);
    if d > 0 { MultipleLarge(d); }
    XorIsZero(r, r');
  }

  // ---------- the table ----------

  const LINES0: seq<seq<nat>> := [
    [0x0000, 0x1021, 0x2042, 0x3063, 0x4084, 0x50a5, 0x60c6, 0x70e7],
    [0x8108, 0x9129, 0xa14a, 0xb16b, 0xc18c, 0xd1ad, 0xe1ce, 0xf1ef],
    [0x1231, 0x0210, 0x3273, 0x2252, 0x52b5, 0x4294, 0x72f7, 0x62d6],
    [0x9339, 0x8318, 0xb37b, 0xa35a, 0xd3bd, 0xc39c, 0xf3ff, 0xe3de]]
  const LINES1: seq<seq<nat>> := [
    [0x2462, 0x3443, 0x0420, 0x1401, 0x64e6, 0x74c7, 0x44a4, 0x5485],
    [0xa56a, 0xb54b, 0x8528, 0x9509, 0xe5ee, 0xf5cf, 0xc5ac, 0xd58d],
    [0x3653, 0x2672, 0x1611, 0x0630, 0x76d7, 0x66f6, 0x5695, 0x46b4],
    [0xb75b, 0xa77a, 0x9719, 0x8738, 0xf7df, 0xe7fe, 0xd79d, 0xc7bc]]
  const LINES2: seq<seq<nat>> := [
    [0x48c4, 0x58e5, 0x6886, 0x78a7, 0x0840, 0x1861, 0x2802, 0x3823],
    [0xc9cc, 0xd9ed, 0xe98e, 0xf9af, 0x8948, 0x9969, 0xa90a, 0xb92b],
    [0x5af5, 0x4ad4, 0x7ab7, 0x6a96, 0x1a71, 0x0a50, 0x3a33, 0x2a12],
    [0xdbfd, 0xcbdc, 0xfbbf, 0xeb9e, 0x9b79, 0x8b58, 0xbb3b, 0xab1a]]
  const LINES3: seq<seq<nat>> := [
    [0x6ca6, 0x7c87, 0x4ce4, 0x5cc5, 0x2c22, 0x3c03, 0x0c60, 0x1c41],
    [0xedae, 0xfd8f, 0xcdec, 0xddcd, 0xad2a, 0xbd0b, 0x8d68, 0x9d49],
    [0x7e97, 0x6eb6, 0x5ed5, 0x4ef4, 0x3e13, 0x2e32, 0x1e51, 0x0e70],
    [0xff9f, 0xefbe, 0xdfdd, 0xcffc, 0xbf1b, 0xaf3a, 0x9f59, 0x8f78]]
  const LINES4: seq<seq<nat>> := [
    [0x9188, 0x81a9, 0xb1ca, 0xa1eb, 0xd10c, 0xc12d, 0xf14e, 0xe16f],
    [0x1080, 0x00a1, 0x30c2, 0x20e3, 0x5004, 0x4025, 0x7046, 0x6067],
    [0x83b9, 0x9398, 0xa3fb, 0xb3da, 0xc33d, 0xd31c, 0xe37f, 0xf35e],
    [0x02b1, 0x1290, 0x22f3, 0x32d2, 0x4235, 0x5214, 0x6277, 0x7256]]
  const LINES5: seq<seq<nat>> := [
    [0xb5ea, 0xa5cb, 0x95a8, 0x8589, 0xf56e, 0xe54f, 0xd52c, 0xc50d],
    [0x34e2, 0x24c3, 0x14a0, 0x0481, 0x7466, 0x6447, 0x5424, 0x4405],
    [0xa7db, 0xb7fa, 0x8799, 0x97b8, 0xe75f, 0xf77e, 0xc71d, 0xd73c],
    [0x26d3, 0x36f2, 0x0691, 0x16b0, 0x6657, 0x7676, 0x4615, 0x5634]]
  const LINES6: seq<seq<nat>> := [
    [0xd94c, 0xc96d, 0xf90e, 0xe92f, 0x99c8, 0x89e9, 0xb98a, 0xa9ab],
    [0x5844, 0x4865, 0x7806, 0x6827, 0x18c0, 0x08e1, 0x3882, 0x28a3],
    [0xcb7d, 0xdb5c, 0xeb3f, 0xfb1e, 0x8bf9, 0x9bd8, 0xabbb, 0xbb9a],
    [0x4a75, 0x5a54, 0x6a37, 0x7a16, 0x0af1, 0x1ad0, 0x2ab3, 0x3a92]]
  const LINES7: seq<seq<nat>> := [
    [0xfd2e, 0xed0f, 0xdd6c, 0xcd4d, 0xbdaa, 0xad8b, 0x9de8, 0x8dc9],
    [0x7c26, 0x6c07, 0x5c64, 0x4c45, 0x3ca2, 0x2c83, 0x1ce0, 0x0cc1],
    [0xef1f, 0xff3e, 0xcf5d, 0xdf7c, 0xaf9b, 0xbfba, 0x8fd9, 0x9ff8],
    [0x6e17, 0x7e36, 0x4e55, 0x5e74, 0x2e93, 0x3eb2, 0x0ed1, 0x1ef0]]

  /** The lines of the table in the source. */
  function Row(h: nat): (r: seq<nat>)
    requires h < 32
    ensures |r| == 8
  {
    if h < 16 then
      if h < 8 then if h < 4 then LINES0[h] else LINES1[h - 4]
      else if h < 12 then LINES2[h - 8] else LINES3[h - 12]
    else
      if h < 24 then if h < 20 then LINES4[h - 16] else LINES5[h - 20]
      else if h < 28 then LINES6[h - 24] else LINES7[h - 28]
  }

  function Table(i: nat): nat
    requires i < 256
  {
    Row(i / 8)[i % 8]
  }

  /** Adds the monomial p, a power of two. */
  function Flip(x: nat, p: nat): nat
    requires p > 0
  {
    if x / p % 2 == 1 && x >= p then x - p else x + p
  }

  /** Adds x^12 + x^5 + 1. */
  function AddLow(x: nat): nat {
    Flip(Flip(Flip(x, 1), 32), 4096)
  }

  /** Multiplication by x, reduced. */
  function Shift(r: nat): nat {
    if r < 0x8000 then 2 * r else AddLow(2 * r - 0x10000)
  }

  /** A line against the half line it comes from: entry 2k is entry k times x, entry 2k + 1 adds the generator. */
  ghost predicate Follows(h: nat, k: nat)
    requires h < 32 && k < 4
  {
    forall s :: Seal(Lines, s) ==>
      Row(h)[2 * k] == Shift(Row(h / 2)[4 * (h % 2) + k]) && Row(h)[2 * k + 1] == AddLow(Row(h)[2 * k])
  }

  lemma Row0(k: nat)
    requires k < 4
    ensures Follows(0, k)
  {
  }

  lemma Row1(k: nat)
    requires k < 4
    ensures Follows(1, k)
  {
  }

  lemma Row2(k: nat)
    requires k < 4
    ensures Follows(2, k)
  {
  }

  lemma Row3(k: nat)
    requires k < 4
    ensures Follows(3, k)
  {
  }

  lemma Row4(k: nat)
    requires k < 4
    ensures Follows(4, k)
  {
  }

  lemma Row5(k: nat)
    requires k < 4
    ensures Follows(5, k)
  {
  }

  lemma Row6(k: nat)
    requires k < 4
    ensures Follows(6, k)
  {
  }

  lemma Row7(k: nat)
    requires k < 4
    ensures Follows(7, k)
  {
  }

  lemma Row8(k: nat)
    requires k < 4
    ensures Follows(8, k)
  {
  }

  lemma Row9(k: nat)
    requires k < 4
    ensures Follows(9, k)
  {
  }

  lemma Row10(k: nat)
    requires k < 4
    ensures Follows(10, k)
  {
  }

  lemma Row11(k: nat)
    requires k < 4
    ensures Follows(11, k)
  {
  }

  lemma Row12(k: nat)
    requires k < 4
    ensures Follows(12, k)
  {
  }

  lemma Row13(k: nat)
    requires k < 4
    ensures Follows(13, k)
  {
  }

  lemma Row14(k: nat)
    requires k < 4
    ensures Follows(14, k)
  {
  }

  lemma Row15(k: nat)
    requires k < 4
    ensures Follows(15, k)
  {
  }

  lemma Row16(k: nat)
    requires k < 4
    ensures Follows(16, k)
  {
  }

  lemma Row17(k: nat)
    requires k < 4
    ensures Follows(17, k)
  {
  }

  lemma Row18(k: nat)
    requires k < 4
    ensures Follows(18, k)
  {
  }

  lemma Row19(k: nat)
    requires k < 4
    ensures Follows(19, k)
  {
  }

  lemma Row20(k: nat)
    requires k < 4
    ensures Follows(20, k)
  {
  }

  lemma Row21(k: nat)
    requires k < 4
    ensures Follows(21, k)
  {
  }

  lemma Row22(k: nat)
    requires k < 4
    ensures Follows(22, k)
  {
  }

  lemma Row23(k: nat)
    requires k < 4
    ensures Follows(23, k)
  {
  }

  lemma Row24(k: nat)
    requires k < 4
    ensures Follows(24, k)
  {
  }

  lemma Row25(k: nat)
    requires k < 4
    ensures Follows(25, k)
  {
  }

  lemma Row26(k: nat)
    requires k < 4
    ensures Follows(26, k)
  {
  }

  lemma Row27(k: nat)
    requires k < 4
    ensures Follows(27, k)
  {
  }

  lemma Row28(k: nat)
    requires k < 4
    ensures Follows(28, k)
  {
  }

  lemma Row29(k: nat)
    requires k < 4
    ensures Follows(29, k)
  {
  }

  lemma Row30(k: nat)
    requires k < 4
    ensures Follows(30, k)
  {
  }

  lemma Row31(k: nat)
    requires k < 4
    ensures Follows(31, k)
  {
  }

  lemma RowStep(h: nat, k: nat)
    requires h < 32 && k < 4
    ensures Follows(h, k)
  {
    match h
    case 0 => Row0(k);
    case 1 => Row1(k);
    case 2 => Row2(k);
    case 3 => Row3(k);
    case 4 => Row4(k);
    case 5 => Row5(k);
    case 6 => Row6(k);
    case 7 => Row7(k);
    case 8 => Row8(k);
    case 9 => Row9(k);
    case 10 => Row10(k);
    case 11 => Row11(k);
    case 12 => Row12(k);
    case 13 => Row13(k);
    case 14 => Row14(k);
    case 15 => Row15(k);
    case 16 => Row16(k);
    case 17 => Row17(k);
    case 18 => Row18(k);
    case 19 => Row19(k);
    case 20 => Row20(k);
    case 21 => Row21(k);
    case 22 => Row22(k);
    case 23 => Row23(k);
    case 24 => Row24(k);
    case 25 => Row25(k);
    case 26 => Row26(k);
    case 27 => Row27(k);
    case 28 => Row28(k);
    case 29 => Row29(k);
    case 30 => Row30(k);
    case _ => Row31(k);
  }

  /** The two halves of every doubled entry. */
  lemma TableStep(i: nat)
    requires i < 128
    ensures Table(2 * i) == Shift(Table(i)) && Table(2 * i + 1) == AddLow(Table(2 * i))
  {
    var h, k := i / 4, i % 4;
    RowStep(h, k);
    assert Seal(Lines, 0);
    assert 2 * i / 8 == h && 2 * i % 8 == 2 * k;
    assert (2 * i + 1) / 8 == h && (2 * i + 1) % 8 == 2 * k + 1;
    assert i / 8 == h / 2 && i % 8 == 4 * (h % 2) + k;
  }

  lemma {:induction false} FlipIsXor(x: nat, k: nat)
    ensures Flip(x, Pow2(k)) == Xor(x, Pow2(k))
    decreases k
  {
    if k == 0 {
      XorDigit(x, 1);
      XorZero(x / 2);
      SameNumber(Flip(x, 1), Xor(x, 1));
    } else {
      var p := Pow2(k - 1);
      FlipIsXor(x / 2, k - 1);
      XorDigit(x, 2 * p);
      Halve(p, 0);
      DivDiv(x, p, 2);
      assert Flip(x, 2 * p) == 2 * Flip(x / 2, p) + x % 2;
      Halve(Flip(x / 2, p), x % 2);
      SameNumber(Flip(x, 2 * p), Xor(x, 2 * p));
    }
  }

  /** x^16 and x^12 + x^5 + 1, the two parts of the generator. */
  const TOP: nat := 0x10000
  const LOW: nat := 0x1021

  lemma AddLowIsXor(x: nat, low: nat)
    requires low == LOW
    ensures AddLow(x) == Xor(x, low)
  {
    var a, b, c := 1, 32, 4096;
    assert Pow2(12) == c by { Pow2Table(); Pow2Add(8, 4); }
    Pow2Table();
    FlipIsXor(x, 0);
    FlipIsXor(Flip(x, a), 5);
    FlipIsXor(Flip(Flip(x, a), b), 12);
    XorAssoc(x, a, b);
    XorAssoc(x, Xor(a, b), c);
    XorComm(a, b);
    XorDisjoint(1, a, 5);
    XorComm(a + b, c);
    XorDisjoint(1, a + b, 12);
  }

  lemma TopPower()
    ensures Pow2(16) == TOP
  {
    Pow2Table();
    Pow2Add(8, 8);
  }

  lemma GeneratorSplits(top: nat, low: nat)
    requires top == TOP && low == LOW
    ensures Multiple(1) == Xor(top, low) && Divides(top, 1, low)
  {
    var g := GENERATOR;
    XorZero(g);
    assert Multiple(0) == 0;
    assert Multiple(1) == Xor(2 * Multiple(0), g);
    TopPower();
    XorDisjoint(1, low, 16);
    XorCancel(low, top);
  }

  lemma ShiftLarge(m2: nat, q2: nat, r2: nat, t: nat, top: nat, low: nat)
    requires top == TOP && low == LOW && r2 == top + t && t < top && m2 == Xor(Multiple(q2), r2)
    ensures Divides(m2, Xor(q2, 1), Xor(t, low))
  {
    TopPower();
    XorDisjoint(1, t, 16);
    GeneratorSplits(top, low);
    XorComm(t, low);
    XorAssoc(top, low, Xor(low, t));
    XorAssoc(low, low, t);
    XorSelf(low);
    XorAssoc(Multiple(q2), Multiple(1), Xor(low, t));
    MultipleXor(q2, 1);
    Small(t, low);
  }

  lemma DoubleDivides(m: nat, q: nat, r: nat)
    requires m == Xor(Multiple(q), r)
    ensures 2 * m == Xor(Multiple(2 * q), 2 * r)
  {
    MultipleTwice(q);
    XorDouble(Multiple(q), r);
  }

  /** Multiplying by x. */
  lemma ShiftDivides(m: nat, q: nat, r: nat) returns (q': nat)
    requires Divides(m, q, r)
    ensures Divides(2 * m, q', Shift(r))
  {
    DoubleDivides(m, q, r);
    if r < 0x8000 {
      q' := 2 * q;
    } else {
      var t, low := 2 * r - TOP, LOW;
      ShiftLarge(2 * m, 2 * q, 2 * r, t, TOP, low);
      AddLowIsXor(t, low);
      q' := Xor(2 * q, 1);
    }
  }

  lemma AddOne(j: nat, top: nat)
    requires top == TOP
    ensures Xor(2 * j * top, top) == (2 * j + 1) * top
  {
    var one := 1;
    TopPower();
    XorScale(2 * j, one, 16);
    XorDisjoint(j, one, 1);
    assert Pow2(1) == 2;
  }

  /** The remainders of 2j and 2j + 1 from that of j. */
  lemma EntryStep(j: nat, q: nat, t: nat, t2: nat, t3: nat) returns (q2: nat, q3: nat)
    requires Divides(j * 0x10000, q, t) && t2 == Shift(t) && t3 == AddLow(t2)
    ensures Divides(2 * j * 0x10000, q2, t2) && Divides((2 * j + 1) * 0x10000, q3, t3)
  {
    var top, low := TOP, LOW;
    q2 := ShiftDivides(j * top, q, t);
    GeneratorSplits(top, low);
    DivideXor(2 * j * top, q2, t2, top, 1, low);
    AddLowIsXor(t2, low);
    AddOne(j, top);
    q3 := Xor(q2, 1);
  }

  /** Every entry is the remainder of its index, moved up sixteen places. */
  lemma {:induction false} TableIsRemainder(i: nat) returns (q: nat)
    requires i < 256
    ensures Divides(i * 0x10000, q, Table(i))
  {
    if i == 0 {
      q := TableStarts();
    } else {
      var j := i / 2;
      q := TableIsRemainder(j);
      TableStep(j);
      var q2, q3 := EntryStep(j, q, Table(j), Table(2 * j), Table(2 * j + 1));
      q := if i % 2 == 0 then q2 else q3;
      assert i == if i % 2 == 0 then 2 * j else 2 * j + 1;
    }
  }

  lemma TableStarts() returns (q: nat)
    ensures Divides(0, q, Table(0))
  {
    assert Row(0)[0] == 0;
    assert Multiple(0) == 0;
    XorZero(0);
    q := 0;
  }

  // ---------- one byte ----------

  /** Moving up eight places, the top byte of the register leaves it and the bottom byte stays. */
  lemma SplitRegister(crc: nat, hi: nat, lo: nat)
    requires crc == hi * 256 + lo && lo < 256
    ensures crc * 256 == Xor(hi * 0x10000, lo * 256)
  {
    TopPower();
    XorDisjoint(hi, lo * 256, 16);
  }

  lemma AppendByte(m: nat, b: Byte)
    ensures (m * 256 + b) * 0x10000 == Xor(m * 0x10000 * 256, b * 0x10000)
  {
    TopPower();
    Pow2Table();
    XorDisjoint(m, b, 8);
    XorScale(m * 256, b, 16);
  }

  lemma RegisterMoves(m: nat, q: nat, crc: nat, hi: nat, lo: nat)
    requires m * 0x10000 == Xor(Multiple(q), crc) && crc == hi * 256 + lo && lo < 256
    ensures m * 0x10000 * 256 == Xor(Multiple(q * 256), Xor(hi * 0x10000, lo * 256))
  {
    Pow2Table();
    XorScale(Multiple(q), crc, 8);
    MultipleScale(q, 8);
    SplitRegister(crc, hi, lo);
  }

  lemma Rearrange(a: nat, h: nat, l: nat, b: nat)
    ensures Xor(Xor(a, Xor(h, l)), b) == Xor(Xor(a, Xor(h, b)), l)
  {
    XorAssoc(a, Xor(h, l), b);
    XorAssoc(h, l, b);
    XorComm(l, b);
    XorAssoc(h, b, l);
    XorAssoc(a, Xor(h, b), l);
  }

  lemma ByteDivides(m: nat, q: nat, crc: nat, b: Byte, hi: nat, lo: nat, qi: nat, t: nat) returns (q': nat)
    requires Divides(m * 0x10000, q, crc) && crc == hi * 256 + lo && lo < 256 && Divides(Xor(hi, b) * 0x10000, qi, t)
    ensures Divides((m * 256 + b) * 0x10000, q', Xor(lo * 256, t))
  {
    AppendByte(m, b);
    RegisterMoves(m, q, crc, hi, lo);
    Rearrange(Multiple(q * 256), hi * 0x10000, lo * 256, b * 0x10000);
    assert Xor(hi * 0x10000, b * 0x10000) == Xor(hi, b) * 0x10000 by { TopPower(); XorScale(hi, b, 16); }
    XorZero(Multiple(q * 256));
    DivideXor(Multiple(q * 256), q * 256, 0, Xor(hi, b) * 0x10000, qi, t);
    XorZero(t);
    q' := Xor(q * 256, qi);
    XorAssoc(Multiple(q'), t, lo * 256);
    XorComm(t, lo * 256);
    Small(t, lo * 256);
  }

  lemma IndexInTable(hi: nat, b: Byte)
    requires hi < 256
    ensures Xor(hi, b) < 256
  {
    Pow2Table();
    XorBelow(hi, b, 8);
  }

  lemma LeaveTopByte(crc: nat)
    ensures crc * 256 % 0x10000 == crc % 256 * 256
  {
  }

  method LookUp(i: nat) returns (entry: nat, ghost q: nat)
    requires i < 256
    ensures Divides(i * 0x10000, q, entry)
  {
    q := TableIsRemainder(i);
    entry := Table(i);
  }

  /** The index of the table entry. */
  method Index(hi: nat, b: Byte) returns (i: nat)
    requires hi < 256
    ensures i == Xor(hi, b) < 256
  {
    IndexInTable(hi, b);
    i := Xor(hi, b);
    assert i % 256 == i;
    i := i % 256;
  }

  /** One round of the loop of `crc16`. */
  method NextCrc(ghost m: nat, ghost q: nat, crc: nat, b: Byte) returns (crc': nat, ghost q': nat)
    requires Divides(m * 0x10000, q, crc)
    ensures Divides((m * 256 + b) * 0x10000, q', crc')
  {
    var hi: nat, shifted: nat := crc / 256, crc * 256 % 0x10000;
    ghost var lo: nat := crc % 256;
    LeaveTopByte(crc);
    var i := Index(hi, b);
    var entry;
    ghost var qi;
    entry, qi := LookUp(i);
    q' := ByteDivides(m, q, crc, b, hi, lo, qi, entry);
    crc' := Xor(shifted, entry);
  }

  /** The source's `crc16`: the remainder of the message, moved up sixteen places, by the generator. */
  method Crc16(buf: seq<Byte>) returns (crc: nat)
    ensures IsCrc(buf, crc)
  {
    crc := 0;
    ghost var q := StartRemainder();
    for counter := 0 to |buf|
      invariant Divides(BytesValue(buf[..counter]) * 0x10000, q, crc)
    {
      BytesSnoc(buf[..counter], buf[counter]);
      assert buf[..counter + 1] == buf[..counter] + [buf[counter]];
      crc, q := NextCrc(BytesValue(buf[..counter]), q, crc, buf[counter]);
    }
    assert buf[..|buf|] == buf;
  }

  lemma StartRemainder() returns (q: nat)
    ensures Divides(0, q, 0)
  {
    assert Multiple(0) == 0;
    XorZero(0);
    q := 0;
  }

  // ---------- what the checksum promises ----------

  /** r is the checksum of v. */
  ghost predicate IsCrc(v: seq<Byte>, r: nat) {
    exists q :: Divides(BytesValue(v) * 0x10000, q, r)
  }

  lemma CrcUnique(v: seq<Byte>, r: nat, s: nat)
    requires IsCrc(v, r) && IsCrc(v, s)
    ensures r == s
  {
    var p: nat :| Divides(BytesValue(v) * 0x10000, p, r);
    var q: nat :| Divides(BytesValue(v) * 0x10000, q, s);
    RemainderUnique(BytesValue(v) * 0x10000, p, r, q, s);
  }

  /** The difference of two messages, byte by byte. */
  function Difference(v: seq<Byte>, w: seq<Byte>): (d: seq<Byte>)
    requires |v| == |w|
    ensures |d| == |v|
  {
    if v == [] then [] else
      var k := |v| - 1;
      var x: nat := Xor(v[k], w[k]);
      IndexInTable(v[k], w[k]);
      Difference(v[..k], w[..k]) + [x]
  }

  lemma ByteXor(a: nat, x: Byte, b: nat, y: Byte)
    ensures Xor(x, y) < 256 && Xor(a * 256 + x, b * 256 + y) == Xor(a, b) * 256 + Xor(x, y)
  {
    IndexInTable(x, y);
    Pow2Table();
    XorJoin(a, x, b, y, 8);
  }

  lemma {:induction false} DifferenceValue(v: seq<Byte>, w: seq<Byte>)
    requires |v| == |w|
    ensures BytesValue(Difference(v, w)) == Xor(BytesValue(v), BytesValue(w))
  {
    if v == [] {
      XorZero(0);
    } else {
      var k := |v| - 1;
      DifferenceValue(v[..k], w[..k]);
      ByteXor(BytesValue(v[..k]), v[k], BytesValue(w[..k]), w[k]);
      BytesSnoc(Difference(v[..k], w[..k]), Xor(v[k], w[k]));
    }
  }

  /** The checksum is linear. */
  lemma CrcLinear(v: seq<Byte>, w: seq<Byte>, r: nat, s: nat)
    requires |v| == |w| && IsCrc(v, r) && IsCrc(w, s)
    ensures IsCrc(Difference(v, w), Xor(r, s))
  {
    var p: nat :| Divides(BytesValue(v) * 0x10000, p, r);
    var q: nat :| Divides(BytesValue(w) * 0x10000, q, s);
    DivideXor(BytesValue(v) * 0x10000, p, r, BytesValue(w) * 0x10000, q, s);
    TopPower();
    XorScale(BytesValue(v), BytesValue(w), 16);
    DifferenceValue(v, w);
    assert Divides(BytesValue(Difference(v, w)) * 0x10000, Xor(p, q), Xor(r, s));
  }

  lemma AppendedDivides(m: nat, q: nat, r: nat)
    requires Divides(m * 0x10000, q, r)
    ensures Divides((m * 0x10000 + r) * 0x10000, q * 0x10000, 0)
  {
    TopPower();
    XorDisjoint(m, r, 16);
    XorCancel(r, Multiple(q));
    assert m * 0x10000 + r == Multiple(q);
    MultipleScale(q, 16);
    XorZero(Multiple(q) * 0x10000);
  }

  /** Appending the checksum, high byte first, makes the checksum zero. */
  lemma CrcAppended(v: seq<Byte>, r: nat, hi: Byte, lo: Byte)
    requires IsCrc(v, r) && hi == r / 256 && lo == r % 256
    ensures IsCrc(v + [hi, lo], 0)
  {
    var q: nat :| Divides(BytesValue(v) * 0x10000, q, r);
    BytesSnoc(v, hi);
    BytesSnoc(v + [hi], lo);
    assert v + [hi] + [lo] == v + [hi, lo];
    assert BytesValue(v + [hi, lo]) == BytesValue(v) * 0x10000 + r;
    AppendedDivides(BytesValue(v), q, r);
    assert Divides(BytesValue(v + [hi, lo]) * 0x10000, q * 0x10000, 0);
  }

  /** The generator has constant term 1, so a multiple has the constant term of its factor. */
  lemma ConstantTerm(q: nat)
    ensures Multiple(q) % 2 == q % 2
  {
    MultipleStep(q);
    XorDigit(2 * Multiple(q / 2), Constant(q));
    Halve(Multiple(q / 2), 0);
  }

  lemma EvenHalf(m: nat, q: nat, f: nat)
    requires f == 2 * m && f % 2 == q % 2
    ensures q == 2 * (q / 2)
  {
  }

  lemma HalfMultiple(m: nat, q: nat, f: nat)
    requires f == Multiple(q) && f == 2 * m
    ensures Multiple(q / 2) == m
  {
    ConstantTerm(q);
    EvenHalf(m, q, f);
    MultipleTwice(q / 2);
  }

  lemma {:induction false} MultipleOfPower(w: nat, k: nat, q: nat) returns (p: nat)
    requires w * Pow2(k) == Multiple(q)
    ensures Multiple(p) == w
    decreases k
  {
    if k == 0 {
      p := q;
    } else {
      assert w * Pow2(k) == 2 * (w * Pow2(k - 1)) by { PowDouble(w, k); }
      HalfMultiple(w * Pow2(k - 1), q, Multiple(q));
      p := MultipleOfPower(w, k - 1, q / 2);
    }
  }

  /** No burst of at most sixteen bits is a multiple of the generator. */
  lemma BurstNotMultiple(burst: nat, k: nat, q: nat)
    requires 0 < burst < 0x10000
    ensures burst * Pow2(k) != Multiple(q)
  {
    if burst * Pow2(k) == Multiple(q) {
      var p := MultipleOfPower(burst, k, q);
      if p > 0 { MultipleLarge(p); }
    }
  }

  lemma ScaleTwice(a: nat, k: nat)
    ensures a * Pow2(k) * 0x10000 == a * Pow2(k + 16)
  {
    TopPower();
    Pow2Add(k, 16);
    assert a * Pow2(k) * Pow2(16) == a * (Pow2(k) * Pow2(16));
  }

  lemma BurstRemainder(m: nat, q: nat, e: nat, burst: nat, k: nat)
    requires 0 < burst < 0x10000 && m == burst * Pow2(k) && Divides(m * 0x10000, q, e)
    ensures e != 0
  {
    ScaleTwice(burst, k);
    BurstNotMultiple(burst, k + 16, q);
    if e == 0 { XorZero(Multiple(q)); }
  }

  /** Messages that differ, and only within sixteen consecutive bits, have different checksums. */
  lemma BurstDetected(v: seq<Byte>, w: seq<Byte>, r: nat, s: nat, burst: nat, k: nat)
    requires |v| == |w| && IsCrc(v, r) && IsCrc(w, s)
    requires 0 < burst < 0x10000 && BytesValue(Difference(v, w)) == burst * Pow2(k)
    ensures r != s
  {
    CrcLinear(v, w, r, s);
    var q: nat :| Divides(BytesValue(Difference(v, w)) * 0x10000, q, Xor(r, s));
    BurstRemainder(BytesValue(Difference(v, w)), q, Xor(r, s), burst, k);
    XorSelf(r);
  }

  lemma {:induction false} MultipleEven(q: nat)
    ensures !Odd(Multiple(q))
  {
    if q != 0 {
      MultipleEven(q / 2);
      OddXor(2 * Multiple(q / 2), Constant(q));
      Halve(Multiple(q / 2), 0);
      GeneratorEven();
    }
  }

  lemma GeneratorEven()
    ensures !Odd(GENERATOR) && !Odd(0)
  {
    assert !Odd(0x11);
    assert !Odd(0x110);
    assert Odd(0x881);
  }

  /** The checksum has an odd number of set bits exactly when the message has. */
  lemma CrcParity(v: seq<Byte>, r: nat)
    requires IsCrc(v, r)
    ensures Odd(r) == Odd(BytesValue(v))
  {
    var q: nat :| Divides(BytesValue(v) * 0x10000, q, r);
    MultipleEven(q);
    OddXor(Multiple(q), r);
    TopPower();
    OddScale(BytesValue(v), 16);
  }

  /** An odd number of flipped bits is always detected. */
  lemma OddErrorsDetected(v: seq<Byte>, w: seq<Byte>, r: nat, s: nat)
    requires |v| == |w| && IsCrc(v, r) && IsCrc(w, s) && Odd(BytesValue(Difference(v, w)))
    ensures r != s
  {
    CrcParity(v, r);
    CrcParity(w, s);
    DifferenceValue(v, w);
    OddXor(BytesValue(v), BytesValue(w));
  }
}
