/** The alphabets and the bit order of RFC 4648, written down apart from the codec of lib/util/basen.h, and the codec
    held against them character by character. */
module BasenTables {
  import opened Arithmetic
  import opened BitStrings
  import opened Basen

  // ---------- the tables of RFC 4648 ----------

  /** Bits that a character stands for. */
  function BitsPer(b: Base): nat {
    match b case B16 => 4 case B32 => 5 case B64 => 6
  }

  /** Characters that are written together: the least number that stands for whole bytes. */
  function Together(b: Base): nat {
    match b case B16 => 2 case B32 => 8 case B64 => 4
  }

  /** Tables 5, 3 and 1 of RFC 4648: the code of the character for a digit. */
  function Letter(b: Base, d: int): int {
    match b
    case B16 => if d < 10 then 48 + d else 65 + (d - 10)
    case B32 => if d < 26 then 65 + d else 50 + (d - 26)
    case B64 => if d < 26 then 65 + d else if d < 52 then 97 + (d - 26) else if d < 62 then 48 + (d - 52)
                else if d == 62 then 43 else 47
  }

  /** The bits of the bytes, the most significant of each first, and zeros behind them. */
  function Bit(v: seq<Byte>, i: nat): (d: int)
    ensures 0 <= d < 2
  {
    if i < 8 * |v| then v[i / 8] / Pow2(7 - i % 8) % 2 else 0
  }

  /** The number that n bits spell, the first of them being the highest. */
  function Group(v: seq<Byte>, from: nat, n: nat): (d: nat)
    ensures d < Pow2(n)
  {
    if n == 0 then 0 else 2 * Group(v, from, n - 1) + Bit(v, from + n - 1)
  }

  /** The text RFC 4648 prescribes: a character for each group of bits, and `=` up to a whole number of groups. */
  predicate Tabulated(b: Base, v: seq<Byte>, text: string) {
    var g := BitsPer(b);
    var n := (8 * |v| + g - 1) / g;
    |text| % Together(b) == 0 && n <= |text| < n + Together(b) &&
    (forall k :: 0 <= k < n ==> text[k] as int == Letter(b, Group(v, k * g, g))) &&
    (forall k :: n <= k < |text| ==> text[k] == '=')
  }

  lemma OneLength(b: Base, n: nat, x: nat, y: nat)
    requires x % Together(b) == 0 && y % Together(b) == 0 && n <= x < n + Together(b) && n <= y < n + Together(b)
    ensures x == y
  {
  }

  /** It prescribes one text. */
  lemma TabulatedOnce(b: Base, v: seq<Byte>, x: string, y: string)
    requires Tabulated(b, v, x) && Tabulated(b, v, y)
    ensures x == y
  {
    var g := BitsPer(b);
    var n := (8 * |v| + g - 1) / g;
    OneLength(b, n, |x|, |y|);
    forall k | 0 <= k < |x| ensures x[k] == y[k] {
      if k < n { assert x[k] as int == Letter(b, Group(v, k * g, g)) == y[k] as int; }
    }
  }

  // ---------- the alphabets ----------

  lemma DictionaryIsTable(b: Base, d: int)
    requires 0 <= d < |Dictionary(b)|
    ensures Dictionary(b)[d] as int == Letter(b, d)
  {
    match b
    case B16 => if d < 10 { DecimalAt(d); }
    case B32 => if d < 26 { UpperAt(d); }
    case B64 => Dictionary64(d);
  }

  lemma Dictionary64(d: int)
    requires 0 <= d < 64
    ensures Dictionary(B64)[d] as int == Letter(B64, d)
  {
    if d < 26 {
      UpperAt(d);
      assert Dictionary(B64)[d] == UPPER[d];
    } else if d < 52 {
      LowerAt(d - 26);
      assert Dictionary(B64)[d] == LOWER[d - 26];
    } else if d < 62 {
      DecimalAt(d - 52);
      assert Dictionary(B64)[d] == DECIMAL[d - 52];
    }
  }

  /** The character is in the table, for this digit. */
  predicate Stands(b: Base, c: char, d: int) {
    0 <= d < Pow2(BitsPer(b)) && c as int == Letter(b, d)
  }

  /** Decoding a character finds its digit in the table, and -1 exactly if it is not there. */
  lemma DecodeIsTable(b: Base, c: char)
    ensures forall d :: Stands(b, c, d) <==> d == DecodeDigit(b, c) != -1
  {
    Pow2Table();
    forall d ensures Stands(b, c, d) <==> d == DecodeDigit(b, c) != -1 { DecodeOne(b, c, d); }
  }

  lemma DecodeOne(b: Base, c: char, d: int)
    requires Pow2(4) == 16 && Pow2(5) == 32 && Pow2(6) == 64
    ensures Stands(b, c, d) <==> d == DecodeDigit(b, c) != -1
  {
  }

  // ---------- the bits ----------

  /** A group in two parts. */
  lemma {:induction false} GroupSplit(v: seq<Byte>, from: nat, m: nat, n: nat)
    ensures Group(v, from, m + n) == Group(v, from, m) * Pow2(n) + Group(v, from + m, n)
    decreases n
  {
    if n > 0 {
      GroupSplit(v, from, m, n - 1);
      OneBitMore(Group(v, from, m), Pow2(n - 1), Group(v, from + m, n - 1), Bit(v, from + m + n - 1));
    }
  }

  lemma OneBitMore(a: int, p: int, rest: int, bit: int)
    ensures 2 * (a * p + rest) + bit == a * (2 * p) + (2 * rest + bit)
  {
  }

  /** The bits of one byte spell it. */
  lemma {:induction false} GroupInByte(v: seq<Byte>, k: nat, n: nat)
    requires k < |v| && n <= 8
    ensures Group(v, 8 * k, n) == v[k] / Pow2(8 - n)
    decreases n
  {
    Pow2Table();
    if n > 0 {
      GroupInByte(v, k, n - 1);
      var i := 8 * k + n - 1;
      assert i / 8 == k && i % 8 == n - 1;
      NextBit(v[k], Pow2(8 - n));
      assert Pow2(8 - (n - 1)) == 2 * Pow2(8 - n);
    }
  }

  lemma NextBit(x: int, p: int)
    requires p > 0
    ensures x / p == 2 * (x / (2 * p)) + x / p % 2
  {
    DivDiv(x, 2, p);
  }

  lemma GroupAndByte(v: seq<Byte>, k: nat, m: nat)
    requires k < |v| && m == 8 * k
    ensures Group(v, 0, m + 8) == Group(v, 0, m) * 256 + v[k]
  {
    GroupSplit(v, 0, m, 8);
    WholeByte(v, k);
  }

  lemma WholeByte(v: seq<Byte>, k: nat)
    requires k < |v|
    ensures Group(v, 8 * k, 8) == v[k] && Pow2(8) == 256
  {
    GroupInByte(v, k, 8);
    Pow2Table();
  }

  lemma {:induction false} GroupOfBytes(v: seq<Byte>, k: nat)
    requires k <= |v|
    ensures Group(v, 0, 8 * k) == BytesValue(v[..k])
  {
    if k > 0 {
      GroupOfBytes(v, k - 1);
      GroupAndByte(v, k - 1, 8 * (k - 1));
      assert v[..k] == v[..k - 1] + [v[k - 1]];
      BytesSnoc(v[..k - 1], v[k - 1]);
    }
  }

  lemma {:induction false} GroupBehind(v: seq<Byte>, from: nat, n: nat)
    requires from >= 8 * |v|
    ensures Group(v, from, n) == 0
  {
    if n > 0 { GroupBehind(v, from, n - 1); }
  }

  lemma LastGroup(v: seq<Byte>, ds: seq<int>, g: nat, n: nat, m: nat)
    requires |ds| == n + 1 && 0 <= ds[n] < Pow2(g) && DigitsValue(ds, g) == Group(v, 0, m + g)
    ensures ds[n] == Group(v, m, g) && DigitsValue(ds[..n], g) == Group(v, 0, m)
  {
    GroupSplit(v, 0, m, g);
    SameDigit(DigitsValue(ds[..n], g), ds[n], Group(v, 0, m), Group(v, m, g), Pow2(g));
  }

  /** Digits of g bits that spell the same number are the groups of bits in turn. */
  lemma {:induction false} DigitsAreGroups(v: seq<Byte>, ds: seq<int>, g: nat, k: nat)
    requires (forall i :: 0 <= i < |ds| ==> 0 <= ds[i] < Pow2(g)) && DigitsValue(ds, g) == Group(v, 0, Times(g, |ds|))
    requires k < |ds|
    ensures ds[k] == Group(v, Times(g, k), g)
    decreases |ds|
  {
    var n := |ds| - 1;
    LastGroup(v, ds, g, n, Times(g, n));
    if k < n { DigitsAreGroups(v, ds[..n], g, k); }
  }

  lemma SameDigit(a: int, d: int, b: int, e: int, p: int)
    requires p > 0 && 0 <= d < p && 0 <= e < p && a * p + d == b * p + e
    ensures a == b && d == e
  {
    ModUnique(a * p + d, a, d, p);
    ModUnique(b * p + e, b, e, p);
  }

  lemma RegroupedBits(t: Traits, v: seq<Byte>, ds: seq<int>)
    requires Regroups(t, v, ds)
    ensures DigitsValue(ds, t.group) == Group(v, 0, |ds| * t.group)
  {
    var z := |ds| * t.group - 8 * |v|;
    GroupSplit(v, 0, 8 * |v|, z);
    GroupOfBytes(v, |v|);
    assert v[..|v|] == v;
    GroupBehind(v, 8 * |v|, z);
  }

  lemma {:induction false} SpelledAt(t: Traits, ds: seq<int>, k: nat)
    requires k < |ds|
    ensures Spell(t, ds)[k] == t.encode(ds[k])
  {
    if k < |ds| - 1 { SpelledAt(t, ds[..|ds| - 1], k); }
  }

  lemma {:induction false} EqualsAt(n: nat, k: nat)
    requires k < n
    ensures Equals(n)[k] == '='
  {
    if k < n - 1 { EqualsAt(n - 1, k); }
  }

  /** How many characters the bits take. */
  lemma DigitCount(b: Base, bytes: nat, n: nat)
    requires 0 <= n * BitsPer(b) - 8 * bytes < BitsPer(b)
    ensures n == (8 * bytes + BitsPer(b) - 1) / BitsPer(b)
  {
  }

  lemma PadsTogether(b: Base, n: nat)
    ensures var m := n + PaddingOf(BitsPer(b), n); m % Together(b) == 0 && n <= m < n + Together(b)
  {
  }

  lemma DigitIsGroup(t: Traits, v: seq<Byte>, ds: seq<int>, k: nat)
    requires Regroups(t, v, ds) && k < |ds|
    ensures ds[k] == Group(v, k * t.group, t.group)
  {
    RegroupedBits(t, v, ds);
    TimesIsProduct(t.group, |ds|);
    TimesIsProduct(t.group, k);
    DigitsAreGroups(v, ds, t.group, k);
  }

  lemma CharacterTabulated(b: Base, v: seq<Byte>, ds: seq<int>, k: nat)
    requires Regroups(TraitsOf(b), v, ds) && k < |ds|
    ensures Spell(TraitsOf(b), ds)[k] as int == Letter(b, Group(v, k * BitsPer(b), BitsPer(b)))
  {
    SpelledAt(TraitsOf(b), ds, k);
    DigitIsGroup(TraitsOf(b), v, ds, k);
    Pow2Table();
    DictionaryIsTable(b, ds[k]);
  }

  /** What the codec writes is what RFC 4648 prescribes. */
  lemma EncodingTabulated(b: Base, v: seq<Byte>, ds: seq<int>, text: string)
    requires Encodes(TraitsOf(b), v, ds, text)
    ensures Tabulated(b, v, text)
  {
    var g := BitsPer(b);
    DigitCount(b, |v|, |ds|);
    PadsTogether(b, |ds|);
    forall k | 0 <= k < |ds|
      ensures text[k] as int == Letter(b, Group(v, k * g, g))
    {
      CharacterTabulated(b, v, ds, k);
    }
    forall k | |ds| <= k < |text| ensures text[k] == '=' { EqualsAt(PaddingOf(g, |ds|), k - |ds|); }
  }

  /** Encoding in each base, against the tables; and back. */
  method EncodeByTable(b: Base, v: seq<Byte>) returns (text: string, back: seq<Byte>)
    ensures Tabulated(b, v, text) && (forall other :: Tabulated(b, v, other) ==> other == text) && back == v
  {
    TraitsValid(b);
    ghost var ds;
    text, ds := Encode(TraitsOf(b), v);
    EncodingTabulated(b, v, ds, text);
    forall other | Tabulated(b, v, other) ensures other == text { TabulatedOnce(b, v, other, text); }
    back := Decode(TraitsOf(b), text);
    RoundTrip(TraitsOf(b), v, ds, text, text, back);
  }

  // ---------- block by block ----------

  lemma BitLeft(u: seq<Byte>, v: seq<Byte>, i: nat)
    requires i < 8 * |u|
    ensures Bit(u + v, i) == Bit(u, i)
  {
  }

  lemma BitRight(u: seq<Byte>, v: seq<Byte>, i: nat)
    ensures Bit(u + v, 8 * |u| + i) == Bit(v, i)
  {
    var j := 8 * |u| + i;
    assert j / 8 == |u| + i / 8 && j % 8 == i % 8;
    if i < 8 * |v| { assert (u + v)[j / 8] == v[i / 8]; }
  }

  lemma {:induction false} GroupLeft(u: seq<Byte>, v: seq<Byte>, from: nat, n: nat)
    requires from + n <= 8 * |u|
    ensures Group(u + v, from, n) == Group(u, from, n)
  {
    if n > 0 {
      GroupLeft(u, v, from, n - 1);
      BitLeft(u, v, from + n - 1);
    }
  }

  lemma {:induction false} GroupRight(u: seq<Byte>, v: seq<Byte>, from: nat, n: nat)
    ensures Group(u + v, 8 * |u| + from, n) == Group(v, from, n)
  {
    if n > 0 {
      GroupRight(u, v, from, n - 1);
      BitRight(u, v, from + n - 1);
    }
  }

  /** Bytes that fill a whole number of groups together. */
  function BytesTogether(b: Base): nat {
    match b case B16 => 1 case B32 => 5 case B64 => 3
  }

  lemma WholeBlocks(b: Base, bytes: nat, more: nat)
    requires bytes % BytesTogether(b) == 0
    ensures var g := BitsPer(b);
            var n := (8 * bytes + g - 1) / g;
            n * g == 8 * bytes && n % Together(b) == 0 && (8 * (bytes + more) + g - 1) / g == n + (8 * more + g - 1) / g
  {
    match b
    case B16 => Blocks16(bytes, more);
    case B32 => Blocks32(bytes, bytes / 5, more);
    case B64 => Blocks64(bytes, bytes / 3, more);
  }

  lemma Blocks16(bytes: nat, more: nat)
    ensures (8 * bytes + 3) / 4 == 2 * bytes && (8 * (bytes + more) + 3) / 4 == 2 * bytes + (8 * more + 3) / 4
    ensures 2 * bytes * 4 == 8 * bytes && 2 * bytes % 2 == 0
  {
  }

  lemma Blocks32(bytes: nat, q: nat, more: nat)
    requires bytes == 5 * q
    ensures (8 * bytes + 4) / 5 == 8 * q && (8 * (bytes + more) + 4) / 5 == 8 * q + (8 * more + 4) / 5
    ensures 8 * q * 5 == 8 * bytes && 8 * q % 8 == 0
  {
  }

  lemma Blocks64(bytes: nat, q: nat, more: nat)
    requires bytes == 3 * q
    ensures (8 * bytes + 5) / 6 == 4 * q && (8 * (bytes + more) + 5) / 6 == 4 * q + (8 * more + 5) / 6
    ensures 4 * q * 6 == 8 * bytes && 4 * q % 4 == 0
  {
  }

  /** What is prescribed for whole blocks and for the rest is prescribed for both together. */
  lemma Blockwise(b: Base, u: seq<Byte>, v: seq<Byte>, x: string, y: string)
    requires |u| % BytesTogether(b) == 0 && Tabulated(b, u, x) && Tabulated(b, v, y)
    ensures Tabulated(b, u + v, x + y)
  {
    var g := BitsPer(b);
    WholeBlocks(b, |u|, |v|);
    var n, m := (8 * |u| + g - 1) / g, (8 * |v| + g - 1) / g;
    OneLength(b, n, |x|, n);
    forall k | 0 <= k < n + m ensures (x + y)[k] as int == Letter(b, Group(u + v, k * g, g)) {
      BlockAt(b, u, v, x, y, k, n);
    }
    Lengths(b, |x|, |y|, n, m);
  }

  lemma Lengths(b: Base, x: nat, y: nat, n: nat, m: nat)
    requires x == n && n % Together(b) == 0 && y % Together(b) == 0 && m <= y < m + Together(b)
    ensures (x + y) % Together(b) == 0 && n + m <= x + y < n + m + Together(b)
  {
    SumMultiple(x, y, Together(b));
  }

  lemma SumMultiple(x: int, y: int, m: int)
    requires m > 0 && x % m == 0 && y % m == 0
    ensures (x + y) % m == 0
  {
    assert x + y == (x / m + y / m) * m by { assert x == x / m * m && y == y / m * m; }
    ModUnique(x + y, x / m + y / m, 0, m);
  }

  lemma Places(b: Base, k: nat, n: nat, bits: nat)
    requires n * BitsPer(b) == bits
    ensures k < n ==> k * BitsPer(b) + BitsPer(b) <= bits
    ensures k >= n ==> k * BitsPer(b) == bits + (k - n) * BitsPer(b)
  {
    match b
    case B16 =>
    case B32 =>
    case B64 =>
  }

  lemma BlockAt(b: Base, u: seq<Byte>, v: seq<Byte>, x: string, y: string, k: nat, n: nat)
    requires Tabulated(b, u, x) && Tabulated(b, v, y) && n == |x| && n * BitsPer(b) == 8 * |u|
    requires n == (8 * |u| + BitsPer(b) - 1) / BitsPer(b) && k < n + (8 * |v| + BitsPer(b) - 1) / BitsPer(b)
    ensures (x + y)[k] as int == Letter(b, Group(u + v, k * BitsPer(b), BitsPer(b)))
  {
    var g := BitsPer(b);
    Places(b, k, n, 8 * |u|);
    if k < n {
      GroupLeft(u, v, k * g, g);
    } else {
      GroupRight(u, v, (k - n) * g, g);
    }
  }

  // ---------- the worked examples of section 10 of RFC 4648 ----------

  lemma SmallValue(v: seq<Byte>)
    ensures |v| == 1 ==> BytesValue(v) == v[0]
    ensures |v| == 2 ==> BytesValue(v) == (v[0] as int) * 256 + v[1]
    ensures |v| == 3 ==> BytesValue(v) == (v[0] as int) * 65536 + (v[1] as int) * 256 + v[2]
  {
    if |v| > 0 { assert v[..1] == [v[0]]; }
    if |v| == 3 { assert v[..2][..1] == v[..1] && v[..2] == [v[0], v[1]]; }
  }

  lemma FourValue(v: seq<Byte>)
    ensures |v| == 4 ==> BytesValue(v) == (v[0] as int) * 16777216 + (v[1] as int) * 65536 + (v[2] as int) * 256 + v[3]
    ensures |v| == 5 ==>
              BytesValue(v) ==
              (v[0] as int) * 4294967296 + (v[1] as int) * 16777216 + (v[2] as int) * 65536 + (v[3] as int) * 256 + v[4]
  {
    if |v| == 4 { SmallValue(v[..3]); }
    if |v| == 5 {
      SmallValue(v[..4][..3]);
      assert v[..4][..3] == v[..3];
    }
  }

  /** The numbers that the first digits spell. */
  predicate Running(ds: seq<int>, g: nat, values: seq<int>) {
    |values| == |ds| + 1 && values[0] == 0 && forall k :: 0 <= k < |ds| ==> values[k + 1] == values[k] * Pow2(g) + ds[k]
  }

  lemma {:induction false} RunningValue(ds: seq<int>, g: nat, values: seq<int>)
    requires Running(ds, g, values)
    ensures DigitsValue(ds, g) == values[|ds|]
  {
    if ds != [] { RunningValue(ds[..|ds| - 1], g, values[..|ds|]); }
  }

  /** The bytes as a number, their digits and their text. */
  predicate Works(b: Base, v: seq<Byte>, value: int, ds: seq<int>, values: seq<int>, text: string) {
    var z := |ds| * BitsPer(b) - 8 * |v|;
    Running(ds, BitsPer(b), values) && 0 <= z < BitsPer(b) && values[|ds|] == value * Pow2(z) &&
    |text| == |ds| + PaddingOf(BitsPer(b), |ds|) &&
    forall k :: 0 <= k < |text| ==>
      if k < |ds| then 0 <= ds[k] < Pow2(BitsPer(b)) && text[k] as int == Letter(b, ds[k]) else text[k] == '='
  }

  lemma Worked(b: Base, v: seq<Byte>, value: int, ds: seq<int>, values: seq<int>, text: string)
    requires BytesValue(v) == value && Works(b, v, value, ds, values, text)
    ensures Tabulated(b, v, text)
  {
    var g := BitsPer(b);
    RunningValue(ds, g, values);
    DigitCount(b, |v|, |ds|);
    PadsTogether(b, |ds|);
    forall k | 0 <= k < |ds| ensures text[k] as int == Letter(b, Group(v, k * g, g)) {
      DigitIsGroup(TraitsOf(b), v, ds, k);
    }
  }

  lemma FoobaValue()
    ensures BytesValue([102, 111, 111, 98, 97]) == 439956234849
  {
    FourValue([102, 111, 111, 98, 97]);
  }

  lemma SixtyFourF()
    ensures Tabulated(B64, [102], "Zg==")
  {
    Pow2Table();
    SmallValue([102]);
    Worked(B64, [102], 102, [25, 32], [0, 25, 1632], "Zg==");
  }

  lemma SixtyFourFo()
    ensures Tabulated(B64, [102, 111], "Zm8=")
  {
    Pow2Table();
    SmallValue([102, 111]);
    Worked(B64, [102, 111], 26223, [25, 38, 60], [0, 25, 1638, 104892], "Zm8=");
  }

  lemma SixtyFourFoo()
    ensures Tabulated(B64, [102, 111, 111], "Zm9v")
  {
    Pow2Table();
    SmallValue([102, 111, 111]);
    Worked(B64, [102, 111, 111], 6713199, [25, 38, 61, 47], [0, 25, 1638, 104893, 6713199], "Zm9v");
  }

  lemma SixtyFourB()
    ensures Tabulated(B64, [98], "Yg==")
  {
    Pow2Table();
    SmallValue([98]);
    Worked(B64, [98], 98, [24, 32], [0, 24, 1568], "Yg==");
  }

  lemma SixtyFourBa()
    ensures Tabulated(B64, [98, 97], "YmE=")
  {
    Pow2Table();
    SmallValue([98, 97]);
    Worked(B64, [98, 97], 25185, [24, 38, 4], [0, 24, 1574, 100740], "YmE=");
  }

  lemma SixtyFourBar()
    ensures Tabulated(B64, [98, 97, 114], "YmFy")
  {
    Pow2Table();
    SmallValue([98, 97, 114]);
    Worked(B64, [98, 97, 114], 6447474, [24, 38, 5, 50], [0, 24, 1574, 100741, 6447474], "YmFy");
  }

  lemma ThirtyTwoF()
    ensures Tabulated(B32, [102], "MY======")
  {
    Pow2Table();
    SmallValue([102]);
    Worked(B32, [102], 102, [12, 24], [0, 12, 408], "MY======");
  }

  lemma ThirtyTwoFo()
    ensures Tabulated(B32, [102, 111], "MZXQ====")
  {
    Pow2Table();
    SmallValue([102, 111]);
    Worked(B32, [102, 111], 26223, [12, 25, 23, 16], [0, 12, 409, 13111, 419568], "MZXQ====");
  }

  lemma ThirtyTwoFoo()
    ensures Tabulated(B32, [102, 111, 111], "MZXW6===")
  {
    Pow2Table();
    SmallValue([102, 111, 111]);
    Worked(B32, [102, 111, 111], 6713199, [12, 25, 23, 22, 30], [0, 12, 409, 13111, 419574, 13426398], "MZXW6===");
  }

  lemma ThirtyTwoFoob()
    ensures Tabulated(B32, [102, 111, 111, 98], "MZXW6YQ=")
  {
    Pow2Table();
    FourValue([102, 111, 111, 98]);
    Worked(B32, [102, 111, 111, 98], 1718579042, [12, 25, 23, 22, 30, 24, 16],
        [0, 12, 409, 13111, 419574, 13426398, 429644760, 13748632336], "MZXW6YQ=");
  }

  lemma ThirtyTwoFooba()
    ensures Tabulated(B32, [102, 111, 111, 98, 97], "MZXW6YTB")
  {
    Pow2Table();
    FoobaValue();
    Worked(B32, [102, 111, 111, 98, 97], 439956234849, [12, 25, 23, 22, 30, 24, 19, 1],
        [0, 12, 409, 13111, 419574, 13426398, 429644760, 13748632339, 439956234849], "MZXW6YTB");
  }

  lemma ThirtyTwoR()
    ensures Tabulated(B32, [114], "OI======")
  {
    Pow2Table();
    SmallValue([114]);
    Worked(B32, [114], 114, [14, 8], [0, 14, 456], "OI======");
  }

  lemma SixteenF()
    ensures Tabulated(B16, [102], "66")
  {
    Pow2Table();
    SmallValue([102]);
    Worked(B16, [102], 102, [6, 6], [0, 6, 102], "66");
  }

  lemma SixteenO()
    ensures Tabulated(B16, [111], "6F")
  {
    Pow2Table();
    SmallValue([111]);
    Worked(B16, [111], 111, [6, 15], [0, 6, 111], "6F");
  }

  lemma SixteenB()
    ensures Tabulated(B16, [98], "62")
  {
    Pow2Table();
    SmallValue([98]);
    Worked(B16, [98], 98, [6, 2], [0, 6, 98], "62");
  }

  lemma SixteenA()
    ensures Tabulated(B16, [97], "61")
  {
    Pow2Table();
    SmallValue([97]);
    Worked(B16, [97], 97, [6, 1], [0, 6, 97], "61");
  }

  lemma SixteenR()
    ensures Tabulated(B16, [114], "72")
  {
    Pow2Table();
    SmallValue([114]);
    Worked(B16, [114], 114, [7, 2], [0, 7, 114], "72");
  }

  /** FOOBAR and what precedes it. */
  const FOOBAR: seq<Byte> := [102, 111, 111, 98, 97, 114]

  lemma ExamplesSixtyFour()
    ensures Tabulated(B64, FOOBAR[..1], "Zg==")
    ensures Tabulated(B64, FOOBAR[..2], "Zm8=")
    ensures Tabulated(B64, FOOBAR[..3], "Zm9v")
    ensures Tabulated(B64, FOOBAR[..4], "Zm9vYg==")
    ensures Tabulated(B64, FOOBAR[..5], "Zm9vYmE=")
    ensures Tabulated(B64, FOOBAR[..6], "Zm9vYmFy")
  {
    SixtyFourF();
    assert FOOBAR[..1] == [102];
    SixtyFourFo();
    assert FOOBAR[..2] == [102, 111];
    SixtyFourFoo();
    assert FOOBAR[..3] == [102, 111, 111];
    SixtyFourB();
    Blockwise(B64, FOOBAR[..3], [98], "Zm9v", "Yg==");
    assert FOOBAR[..4] == FOOBAR[..3] + [98];
    assert "Zm9vYg==" == "Zm9v" + "Yg==";
    SixtyFourBa();
    Blockwise(B64, FOOBAR[..3], [98, 97], "Zm9v", "YmE=");
    assert FOOBAR[..5] == FOOBAR[..3] + [98, 97];
    assert "Zm9vYmE=" == "Zm9v" + "YmE=";
    SixtyFourBar();
    Blockwise(B64, FOOBAR[..3], [98, 97, 114], "Zm9v", "YmFy");
    assert FOOBAR[..6] == FOOBAR[..3] + [98, 97, 114];
    assert "Zm9vYmFy" == "Zm9v" + "YmFy";
  }

  lemma ExamplesThirtyTwo()
    ensures Tabulated(B32, FOOBAR[..1], "MY======")
    ensures Tabulated(B32, FOOBAR[..2], "MZXQ====")
    ensures Tabulated(B32, FOOBAR[..3], "MZXW6===")
    ensures Tabulated(B32, FOOBAR[..4], "MZXW6YQ=")
    ensures Tabulated(B32, FOOBAR[..5], "MZXW6YTB")
    ensures Tabulated(B32, FOOBAR[..6], "MZXW6YTBOI======")
  {
    ThirtyTwoF();
    assert FOOBAR[..1] == [102];
    ThirtyTwoFo();
    assert FOOBAR[..2] == [102, 111];
    ThirtyTwoFoo();
    assert FOOBAR[..3] == [102, 111, 111];
    ThirtyTwoFoob();
    assert FOOBAR[..4] == [102, 111, 111, 98];
    ThirtyTwoFooba();
    assert FOOBAR[..5] == [102, 111, 111, 98, 97];
    ThirtyTwoR();
    Blockwise(B32, FOOBAR[..5], [114], "MZXW6YTB", "OI======");
    assert FOOBAR[..6] == FOOBAR[..5] + [114];
    assert "MZXW6YTBOI======" == "MZXW6YTB" + "OI======";
  }

  lemma ExamplesSixteen()
    ensures Tabulated(B16, FOOBAR[..1], "66")
    ensures Tabulated(B16, FOOBAR[..2], "666F")
    ensures Tabulated(B16, FOOBAR[..3], "666F6F")
    ensures Tabulated(B16, FOOBAR[..4], "666F6F62")
    ensures Tabulated(B16, FOOBAR[..5], "666F6F6261")
    ensures Tabulated(B16, FOOBAR[..6], "666F6F626172")
  {
    SixteenF();
    assert FOOBAR[..1] == [102];
    SixteenO();
    Blockwise(B16, FOOBAR[..1], [111], "66", "6F");
    assert FOOBAR[..2] == FOOBAR[..1] + [111];
    assert "666F" == "66" + "6F";
    SixteenO();
    Blockwise(B16, FOOBAR[..2], [111], "666F", "6F");
    assert FOOBAR[..3] == FOOBAR[..2] + [111];
    assert "666F6F" == "666F" + "6F";
    SixteenB();
    Blockwise(B16, FOOBAR[..3], [98], "666F6F", "62");
    assert FOOBAR[..4] == FOOBAR[..3] + [98];
    assert "666F6F62" == "666F6F" + "62";
    SixteenA();
    Blockwise(B16, FOOBAR[..4], [97], "666F6F62", "61");
    assert FOOBAR[..5] == FOOBAR[..4] + [97];
    assert "666F6F6261" == "666F6F62" + "61";
    SixteenR();
    Blockwise(B16, FOOBAR[..5], [114], "666F6F6261", "72");
    assert FOOBAR[..6] == FOOBAR[..5] + [114];
    assert "666F6F626172" == "666F6F6261" + "72";
  }
}
