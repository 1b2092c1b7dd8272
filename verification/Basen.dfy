/** The codec of lib/util/basen.h, against the bit-string reading of RFC 4648. */
module Basen {
  import opened Arithmetic
  import opened BitStrings
  import opened Sealing

  predicate IsSpace(c: char) {
    c == ' ' || '\t' <= c <= '\r'
  }

  /** The conversion traits the codec is written over: bits per digit, and the two alphabet functions.
      `decode` answers -1 for a character that is no digit. */
  datatype Traits = Traits(group: nat, encode: int -> char, decode: char -> int) {
    ghost predicate Valid() {
      4 <= group <= 6 &&
      (forall d :: 0 <= d < Pow2(group) ==> decode(encode(d)) == d) &&
      (forall c :: -1 <= decode(c) < Pow2(group)) &&
      (forall c :: c == '=' || IsSpace(c) ==> decode(c) == -1)
    }
  }

  // ---------- what encoding means ----------

  predicate AreDigits(t: Traits, ds: seq<int>) {
    forall i :: 0 <= i < |ds| ==> 0 <= ds[i] < Pow2(t.group)
  }

  function Spell(t: Traits, ds: seq<int>): (s: string)
    ensures |s| == |ds|
  {
    if ds == [] then "" else Spell(t, ds[..|ds| - 1]) + [t.encode(ds[|ds| - 1])]
  }

  function Equals(n: nat): (s: string)
    ensures |s| == n
  {
    if n == 0 then "" else Equals(n - 1) + "="
  }

  /** Characters in a full quantum, the unit that padding completes: 2 for base16, 8 for base32, 4 for base64. */
  function Quantum(g: nat): (q: nat)
    ensures q > 0
  {
    if g == 4 then 2 else if g == 5 then 8 else 4
  }

  function PaddingOf(g: nat, n: nat): nat {
    (Quantum(g) - n % Quantum(g)) % Quantum(g)
  }

  /** The digits spell the bits of v, the last digit filled with fewer than g zeros. */
  predicate Regroups(t: Traits, v: seq<Byte>, ds: seq<int>) {
    var z := |ds| * t.group - 8 * |v|;
    AreDigits(t, ds) && 0 <= z < t.group && DigitsValue(ds, t.group) == BytesValue(v) * Pow2(z)
  }

  /** RFC 4648: regroup the bits into digits, spell them, and complete the quantum with `=`. */
  predicate Encodes(t: Traits, v: seq<Byte>, ds: seq<int>, text: string) {
    Regroups(t, v, ds) && text == Spell(t, ds) + Equals(PaddingOf(t.group, |ds|))
  }

  ghost predicate IsEncoding(t: Traits, v: seq<Byte>, text: string) {
    exists ds :: Encodes(t, v, ds, text)
  }

  function EncodedSize(g: nat, n: nat): nat {
    if g == 4 then n * 2 else if g == 5 then (n + 4) / 5 * 8 else (n + 2) / 3 * 4
  }

  lemma SizeOf32(n: nat, m: nat)
    requires 0 <= m * 5 - 8 * n < 5
    ensures m + (8 - m % 8) % 8 == (n + 4) / 5 * 8
  {
  }

  lemma SizeOf64(n: nat, m: nat)
    requires 0 <= m * 6 - 8 * n < 6
    ensures m + (4 - m % 4) % 4 == (n + 2) / 3 * 4
  {
  }

  lemma SizeOf(g: nat, n: nat, m: nat)
    requires 4 <= g <= 6 && 0 <= m * g - 8 * n < g
    ensures m + PaddingOf(g, m) == EncodedSize(g, n)
  {
    if g == 4 {
      assert m == 2 * n;
    } else if g == 5 {
      SizeOf32(n, m);
    } else {
      SizeOf64(n, m);
    }
  }

  lemma EncodedLength(t: Traits, v: seq<Byte>, ds: seq<int>, text: string)
    requires t.Valid() && Encodes(t, v, ds, text)
    ensures |text| == EncodedSize(t.group, |v|)
  {
    SizeOf(t.group, |v|, |ds|);
  }

  // ---------- the encoder ----------

  /** What the digits written so far spell, with k bytes taken and the next digit starting at bit `start`. */
  ghost predicate Written(v: seq<Byte>, k: int, start: nat, value: int)
    requires 0 <= k <= |v| && start < 8
  {
    value == BytesValue(v[..k]) * Pow2(start) + if k < |v| then v[k] / Pow2(8 - start) else 0
  }

  lemma Scale(value: int, b: int, p: int, r: int, q: int)
    requires value == b * p + r
    ensures value * q == b * (p * q) + r * q
  {
  }

  lemma WritePartial(v: seq<Byte>, k: int, start: nat, g: nat, value: int, d: int)
    requires 0 <= k < |v| && start + g < 8 && Written(v, k, start, value)
    requires v[k] / Pow2(8 - start) * Pow2(g) + d == v[k] / Pow2(8 - start - g)
    ensures Written(v, k, start + g, value * Pow2(g) + d)
  {
    Pow2Add(start, g);
    Scale(value, BytesValue(v[..k]), Pow2(start), v[k] / Pow2(8 - start), Pow2(g));
  }

  lemma NextByte(value: int, b: int, x: int, d: int, rest: int, p: int, q: int, r: int, g: int)
    requires p * q == 256 && q * r == g && q > 0 && value == b * p + x / q && x / q * g + d == x * r + rest
    ensures value * g + d == (b * 256 + x) * r + rest
  {
    Scale(value, b, p, x / q, g);
    assert p * (q * r) == 256 * r;
  }

  lemma WriteOverlapping(v: seq<Byte>, k: int, start: nat, g: nat, value: int, next: Byte, d: int)
    requires 0 <= k < |v| && g < 8 && 8 - g <= start < 8 && Written(v, k, start, value)
    requires next == if k + 1 < |v| then v[k + 1] else 0
    requires v[k] / Pow2(8 - start) * Pow2(g) + d == v[k] * Pow2(start + g - 8) + next / Pow2(16 - start - g)
    ensures Written(v, k + 1, start + g - 8, value * Pow2(g) + d)
  {
    var n := start + g - 8;
    assert Pow2(start) * Pow2(8 - start) == 256 by { Pow2Add(start, 8 - start); Pow2Table(); }
    assert Pow2(8 - start) * Pow2(n) == Pow2(g) by { Pow2Add(8 - start, n); }
    assert BytesValue(v[..k + 1]) == BytesValue(v[..k]) * 256 + v[k] by {
      assert v[..k + 1] == v[..k] + [v[k]];
      BytesSnoc(v[..k], v[k]);
    }
    NextByte(value, BytesValue(v[..k]), v[k], d, next / Pow2(8 - n), Pow2(start), Pow2(8 - start), Pow2(n), Pow2(g));
    assert next / Pow2(8 - n) == if k + 1 < |v| then v[k + 1] / Pow2(8 - n) else 0;
  }

  /** The encoder's state: k whole bytes and `start` bits of the next one are in the text. */
  ghost predicate Encoded(t: Traits, v: seq<Byte>, k: int, start: nat, ds: seq<int>, text: string) {
    0 <= k <= |v| && start < 8 &&
    forall s :: Seal(Digits, s) ==>
      AreDigits(t, ds) && text == Spell(t, ds) && |ds| * t.group == 8 * k + start &&
      Written(v, k, start, DigitsValue(ds, t.group))
  }

  lemma AppendDigit(t: Traits, v: seq<Byte>, k: int, start: nat, ds: seq<int>, text: string, d: int, k': int,
                    start': nat)
    requires Encoded(t, v, k, start, ds, text) && 0 <= k' <= |v| && start' < 8
    requires 0 <= d < Pow2(t.group) && 8 * k' + start' == 8 * k + start + t.group
    requires Written(v, k', start', DigitsValue(ds, t.group) * Pow2(t.group) + d)
    ensures Encoded(t, v, k', start', ds + [d], text + [t.encode(d)])
  {
    assert Seal(Digits, 0);
    DigitsSnoc(ds, d, t.group);
    assert (ds + [d])[..|ds|] == ds;
    assert (|ds| + 1) * t.group == |ds| * t.group + t.group;
  }

  lemma EncodedValue(t: Traits, v: seq<Byte>, k: int, start: nat, ds: seq<int>, text: string)
    requires Encoded(t, v, k, start, ds, text)
    ensures Written(v, k, start, DigitsValue(ds, t.group))
  {
    assert Seal(Digits, 0);
  }

  /** A digit from inside byte k. */
  method EncodePartial(t: Traits, v: seq<Byte>, k: int, start: nat, ghost ds: seq<int>, ghost text: string)
    returns (c: char, ghost d: int)
    requires Encoded(t, v, k, start, ds, text) && k < |v| && start + t.group < 8
    ensures Encoded(t, v, k, start + t.group, ds + [d], text + [c])
  {
    EncodedValue(t, v, k, start, ds, text);
    PartialBits(v[k], start, t.group);
    var digit := ExtractPartialBits(v[k], start, t.group);
    WritePartial(v, k, start, t.group, DigitsValue(ds, t.group), digit);
    AppendDigit(t, v, k, start, ds, text, digit, k, start + t.group);
    c, d := t.encode(digit), digit;
  }

  /** A digit from the end of byte k and the beginning of the next. */
  method EncodeOverlapping(t: Traits, ghost v: seq<Byte>, ghost k: int, start: nat, backlog: Byte, next: Byte,
                           ghost ds: seq<int>, ghost text: string) returns (c: char, ghost d: int)
    requires Encoded(t, v, k, start, ds, text) && k < |v| && t.group < 8 <= start + t.group
    requires backlog == v[k] && next == if k + 1 < |v| then v[k + 1] else 0
    ensures Encoded(t, v, k + 1, start + t.group - 8, ds + [d], text + [c])
  {
    EncodedValue(t, v, k, start, ds, text);
    OverlappingBits(backlog, next, start, t.group);
    var digit := ExtractOverlappingBits(backlog, next, start, t.group);
    WriteOverlapping(v, k, start, t.group, DigitsValue(ds, t.group), next, digit);
    AppendDigit(t, v, k, start, ds, text, digit, k + 1, start + t.group - 8);
    c, d := t.encode(digit), digit;
  }

  /** The main loop of `encode`. */
  method EncodeDigits(t: Traits, v: seq<Byte>) returns (text: string, start: nat, ghost ds: seq<int>)
    requires 4 <= t.group <= 6
    ensures Encoded(t, v, |v|, start, ds, text) && start < t.group
  {
    var i: nat := 0;
    var hasBacklog := false;
    var backlog: Byte := 0;
    text, start, ds := "", 0, [];
    while hasBacklog || i != |v|
      invariant hasBacklog ==> 0 < i <= |v| && backlog == v[i - 1] && start + t.group >= 8
      invariant i == |v| && !hasBacklog ==> start < t.group
      invariant Encoded(t, v, if hasBacklog then i - 1 else i, start, ds, text)
      decreases 2 * |v| - 2 * i + (if hasBacklog then 1 else 0), 8 - start
    {
      if !hasBacklog {
        if start + t.group < 8 {
          var c;
          ghost var d;
          c, d := EncodePartial(t, v, i, start, ds, text);
          text, ds := text + [c], ds + [d];
          start := start + t.group;
        } else {
          backlog := v[i];
          i := i + 1;
          hasBacklog := true;
        }
      } else {
        var next: Byte := if i != |v| then v[i] else 0;
        var c;
        ghost var d;
        c, d := EncodeOverlapping(t, v, i - 1, start, backlog, next, ds, text);
        text, ds := text + [c], ds + [d];
        hasBacklog := false;
        start := (start + t.group) % 8;
      }
    }
  }

  // ---------- padding ----------

  /** Which bit positions the digits of a base can end at. */
  predicate Aligned(g: nat, start: nat) {
    start < 8 && (g == 4 ==> start % 4 == 0) && (g == 6 ==> start % 2 == 0)
  }

  /** Steps of the padding loop from bit `start`. */
  function PadSteps(g: nat, start: nat): nat {
    if g == 4 then (start / 4) % 2 else if g == 5 then (3 * start) % 8 else (start / 2) % 4
  }

  lemma PadStep(g: nat, start: nat)
    requires 4 <= g <= 6 && Aligned(g, start) && start != 0
    ensures PadSteps(g, start) == 1 + PadSteps(g, (start + g) % 8) && Aligned(g, (start + g) % 8)
  {
    if g == 4 {} else if g == 5 {} else {}
  }

  lemma PaddingAt16(n: nat, k: nat, start: nat)
    requires n * 4 == 8 * k + start && start < 8
    ensures Aligned(4, start) && (2 - n % 2) % 2 == (start / 4) % 2
  {
  }

  lemma PaddingAt32(n: nat, k: nat, start: nat)
    requires n * 5 == 8 * k + start && start < 8
    ensures (8 - n % 8) % 8 == (3 * start) % 8
  {
    assert 15 * n == 24 * k + 3 * start;
    assert n + (3 * start) % 8 == 16 * n - 24 * k - 3 * start + (3 * start) % 8;
  }

  lemma PaddingAt64(n: nat, k: nat, start: nat)
    requires n * 6 == 8 * k + start && start < 8
    ensures Aligned(6, start) && (4 - n % 4) % 4 == (start / 2) % 4
  {
  }

  lemma PaddingAt(g: nat, n: nat, k: nat, start: nat)
    requires 4 <= g <= 6 && n * g == 8 * k + start && start < 8
    ensures Aligned(g, start) && PaddingOf(g, n) == PadSteps(g, start)
  {
    if g == 4 {
      PaddingAt16(n, k, start);
    } else if g == 5 {
      PaddingAt32(n, k, start);
    } else {
      PaddingAt64(n, k, start);
    }
  }

  /** The padding loop of `encode`. */
  method Pad(g: nat, digits: string, first: nat) returns (text: string)
    requires 4 <= g <= 6 && Aligned(g, first)
    ensures text == digits + Equals(PadSteps(g, first))
  {
    var start: nat := first;
    text := digits;
    ghost var p := 0;
    while start != 0
      invariant Aligned(g, start)
      invariant p + PadSteps(g, start) == PadSteps(g, first) && text == digits + Equals(p)
      decreases PadSteps(g, start)
    {
      PadStep(g, start);
      text := text + "=";
      start := (start + g) % 8;
      p := p + 1;
    }
  }

  lemma EncodedAll(t: Traits, v: seq<Byte>, start: nat, ds: seq<int>, digits: string)
    requires 4 <= t.group <= 6 && Encoded(t, v, |v|, start, ds, digits) && start < t.group
    ensures Aligned(t.group, start) && Encodes(t, v, ds, digits + Equals(PadSteps(t.group, start)))
  {
    assert Seal(Digits, 0);
    assert v[..|v|] == v;
    PaddingAt(t.group, |ds|, |v|, start);
  }

  /** The source's `encode`. */
  method Encode(t: Traits, v: seq<Byte>) returns (text: string, ghost ds: seq<int>)
    requires 4 <= t.group <= 6
    ensures Encodes(t, v, ds, text) && IsEncoding(t, v, text)
  {
    var digits, start;
    digits, start, ds := EncodeDigits(t, v);
    EncodedAll(t, v, start, ds, digits);
    text := Pad(t.group, digits, start);
  }

  // ---------- what decoding means ----------

  /** The digits in a text, in order; everything else is skipped. */
  function DigitsIn(t: Traits, text: string): seq<int> {
    if text == "" then [] else
      var d := t.decode(text[|text| - 1]);
      DigitsIn(t, text[..|text| - 1]) + if d == -1 then [] else [d]
  }

  function EqualsIn(text: string): nat {
    if text == "" then 0 else EqualsIn(text[..|text| - 1]) + if text[|text| - 1] == '=' then 1 else 0
  }

  /** Bytes read off a string of `count` bits that spells `value`. Bits left over after the last whole byte are dropped
      when `padding` bits complete them, and otherwise make one more byte filled with zeros. */
  predicate ReadsAs(count: nat, value: int, padding: nat, w: seq<Byte>) {
    var left := count % 8;
    if left == 0 || (padding + left) % 8 == 0 then
      |w| == count / 8 && BytesValue(w) == value / Pow2(left)
    else
      |w| == count / 8 + 1 && BytesValue(w) == value * Pow2(8 - left)
  }

  /** What a text decodes to: its digits read as one bit string, each `=` standing for one digit of padding. */
  predicate Decodes(t: Traits, text: string, w: seq<Byte>) {
    var ds := DigitsIn(t, text);
    ReadsAs(|ds| * t.group, DigitsValue(ds, t.group), EqualsIn(text) * t.group, w)
  }

  /** A text decodes to one byte string only. */
  lemma DecodesOnce(t: Traits, text: string, v: seq<Byte>, w: seq<Byte>)
    requires Decodes(t, text, v) && Decodes(t, text, w)
    ensures v == w
  {
    BytesUnique(v, w);
  }

  // ---------- the decoder ----------

  /** The decoder's state: whole bytes in `out`, `cur` more bits at the top of `buffer`. */
  ghost predicate Decoded(t: Traits, ds: seq<int>, out: seq<Byte>, cur: nat, buffer: Byte) {
    cur < 8 &&
    forall s :: Seal(Digits, s) ==>
      |ds| * t.group == 8 * |out| + cur && buffer % Pow2(8 - cur) == 0 &&
      DigitsValue(ds, t.group) == BytesValue(out) * Pow2(cur) + buffer / Pow2(8 - cur)
  }

  lemma EmptyDecoded(t: Traits)
    ensures Decoded(t, [], [], 0, 0)
  {
    ModUnique(0, 0, 0, Pow2(8));
  }

  lemma DecodedValue(t: Traits, ds: seq<int>, out: seq<Byte>, cur: nat, buffer: Byte)
    requires Decoded(t, ds, out, cur, buffer)
    ensures buffer % Pow2(8 - cur) == 0
    ensures DigitsValue(ds, t.group) == BytesValue(out) * Pow2(cur) + buffer / Pow2(8 - cur)
  {
    assert Seal(Digits, 0);
  }

  lemma DecodedCount(t: Traits, ds: seq<int>, out: seq<Byte>, cur: nat, buffer: Byte)
    requires Decoded(t, ds, out, cur, buffer)
    ensures |ds| * t.group == 8 * |out| + cur
  {
    assert Seal(Digits, 0);
  }

  lemma DecodedNext(t: Traits, ds: seq<int>, out: seq<Byte>, cur: nat, buffer: Byte, d: int, out': seq<Byte>, cur': nat,
                    buffer': Byte)
    requires Decoded(t, ds, out, cur, buffer) && cur' < 8 && 8 * |out'| + cur' == 8 * |out| + cur + t.group
    requires buffer' % Pow2(8 - cur') == 0
    requires DigitsValue(ds, t.group) * Pow2(t.group) + d == BytesValue(out') * Pow2(cur') + buffer' / Pow2(8 - cur')
    ensures Decoded(t, ds + [d], out', cur', buffer')
  {
    assert Seal(Digits, 0);
    DigitsSnoc(ds, d, t.group);
    assert (|ds| + 1) * t.group == |ds| * t.group + t.group;
  }

  lemma DecodeFill(t: Traits, ds: seq<int>, out: seq<Byte>, cur: nat, buffer: Byte, d: int, r: Byte)
    requires Decoded(t, ds, out, cur, buffer) && cur + t.group <= 8
    requires var k := 8 - cur - t.group; r % Pow2(k) == 0 && r / Pow2(k) == buffer / Pow2(8 - cur) * Pow2(t.group) + d
    ensures if cur + t.group < 8 then Decoded(t, ds + [d], out, cur + t.group, r)
        else Decoded(t, ds + [d], out + [r], 0, 0)
  {
    var g := t.group;
    DecodedValue(t, ds, out, cur, buffer);
    Scale(DigitsValue(ds, g), BytesValue(out), Pow2(cur), buffer / Pow2(8 - cur), Pow2(g));
    Pow2Add(cur, g);
    if cur + g < 8 {
      DecodedNext(t, ds, out, cur, buffer, d, out, cur + g, r);
    } else {
      Pow2Table();
      BytesSnoc(out, r);
      DecodedNext(t, ds, out, cur, buffer, d, out + [r], 0, 0);
    }
  }

  lemma StraddleAlgebra(v: int, buffer: int, d: int, pc: int, pr: int, pn: int, pg: int)
    requires pr > 0 && pn > 0 && pc * pr == 256 && pg == pr * pn && buffer % pr == 0
    ensures (v * pc + buffer / pr) * pg + d == (v * 256 + (buffer + d / pn)) * pn + d % pn
  {
    var h, q := buffer / pr, d / pn;
    assert buffer == h * pr && d == q * pn + d % pn;
    assert (v * pc + h) * (pr * pn) == (v * (pc * pr) + h * pr) * pn;
  }

  lemma DecodeStraddle(t: Traits, ds: seq<int>, out: seq<Byte>, cur: nat, buffer: Byte, d: int, hi: Byte, lo: Byte)
    requires Decoded(t, ds, out, cur, buffer) && t.group < 8 < cur + t.group
    requires var n := cur + t.group - 8;
             hi == buffer + d / Pow2(n) && lo % Pow2(8 - n) == 0 && lo / Pow2(8 - n) == d % Pow2(n)
    ensures Decoded(t, ds + [d], out + [hi], cur + t.group - 8, lo)
  {
    var g, n := t.group, cur + t.group - 8;
    DecodedValue(t, ds, out, cur, buffer);
    BytesSnoc(out, hi);
    assert Pow2(cur) * Pow2(8 - cur) == 256 by { Pow2Add(cur, 8 - cur); Pow2Table(); }
    Pow2Add(8 - cur, n);
    StraddleAlgebra(BytesValue(out), buffer, d, Pow2(cur), Pow2(8 - cur), Pow2(n), Pow2(g));
    DecodedNext(t, ds, out, cur, buffer, d, out + [hi], n, lo);
  }

  /** The value fits within the current byte, which may fill up. */
  method PutWithin(t: Traits, ghost ds: seq<int>, out: seq<Byte>, cur: nat, buffer: Byte, value: int)
      returns (out': seq<Byte>, cur': nat, buffer': Byte)
    requires Decoded(t, ds, out, cur, buffer) && 0 <= value < Pow2(t.group) && cur + t.group <= 8
    ensures Decoded(t, ds + [value], out', cur', buffer')
  {
    DecodedValue(t, ds, out, cur, buffer);
    FillValue(buffer, value, cur, t.group);
    buffer' := Or(buffer, value * Pow2(8 - cur - t.group) % 256, 8);
    DecodeFill(t, ds, out, cur, buffer, value, buffer');
    out', cur' := out, cur + t.group;
    if cur' == 8 {
      out' := out + [buffer'];
      buffer', cur' := 0, 0;
    }
  }

  /** The value spans the current and the next byte. */
  method PutAcross(t: Traits, ghost ds: seq<int>, out: seq<Byte>, cur: nat, buffer: Byte, value: int, inNext: nat)
      returns (out': seq<Byte>, cur': nat, buffer': Byte)
    requires Decoded(t, ds, out, cur, buffer) && 0 <= value < Pow2(t.group)
    requires t.group < 8 < cur + t.group && inNext == cur + t.group - 8
    ensures Decoded(t, ds + [value], out', cur', buffer')
  {
    DecodedValue(t, ds, out, cur, buffer);
    StraddleValue(buffer, value, cur, t.group);
    var full := Or(buffer, value / Pow2(inNext), 8);
    out' := out + [full];
    buffer' := value * Pow2(8 - inNext) % 256;
    cur' := inNext;
    DecodeStraddle(t, ds, out, cur, buffer, value, full, buffer');
  }

  /** The body of the loop of `decode` for a character that is a digit. */
  method DecodeInto(t: Traits, ghost ds: seq<int>, out: seq<Byte>, cur: nat, buffer: Byte, value: int)
      returns (out': seq<Byte>, cur': nat, buffer': Byte)
    requires t.group < 8 && Decoded(t, ds, out, cur, buffer) && 0 <= value < Pow2(t.group)
    ensures Decoded(t, ds + [value], out', cur', buffer')
  {
    var inCurrent := (if cur + t.group < 8 then cur + t.group else 8) - cur;
    if inCurrent == t.group {
      out', cur', buffer' := PutWithin(t, ds, out, cur, buffer, value);
    } else {
      out', cur', buffer' := PutAcross(t, ds, out, cur, buffer, value, t.group - inCurrent);
    }
  }

  lemma TextSnoc(t: Traits, text: string, i: nat)
    requires i < |text|
    ensures DigitsIn(t, text[..i + 1]) == DigitsIn(t, text[..i]) + if t.decode(text[i]) == -1 then []
        else [t.decode(text[i])]
    ensures EqualsIn(text[..i + 1]) == EqualsIn(text[..i]) + if text[i] == '=' then 1 else 0
  {
    assert text[..i + 1][..i] == text[..i];
  }

  /** The loop of `decode`. */
  method DecodeDigits(t: Traits, text: string) returns (out: seq<Byte>, cur: nat, buffer: Byte, trailingEqual: nat)
    requires t.Valid()
    ensures trailingEqual == EqualsIn(text) && Decoded(t, DigitsIn(t, text), out, cur, buffer)
  {
    out, cur, buffer, trailingEqual := [], 0, 0, 0;
    EmptyDecoded(t);
    ghost var ds := [];
    for i := 0 to |text|
      invariant trailingEqual == EqualsIn(text[..i]) && ds == DigitsIn(t, text[..i]) && Decoded(t, ds, out, cur, buffer)
    {
      TextSnoc(t, text, i);
      if text[i] == '=' {
        trailingEqual := trailingEqual + 1;
      } else if !IsSpace(text[i]) {
        var value := t.decode(text[i]);
        if value != -1 {
          out, cur, buffer := DecodeInto(t, ds, out, cur, buffer, value);
          ds := ds + [value];
        }
      }
    }
    assert text[..|text|] == text;
  }

  lemma DecodedAlgebra(value: int, v: int, h: int, buffer: Byte, pc: int, pr: int)
    requires pc > 0 && pr > 0 && pc * pr == 256 && value == v * pc + h && buffer % pr == 0 && h == buffer / pr
    ensures value / pc == v && value * pr == v * 256 + buffer
  {
    QuotientBelow(buffer, pc, pr);
    ModUnique(value, v, h, pc);
    assert (v * pc + h) * pr == v * (pc * pr) + h * pr;
  }

  lemma DecodedNumbers(count: nat, value: int, padding: nat, out: seq<Byte>, cur: nat, buffer: Byte)
    requires cur < 8 && count == 8 * |out| + cur && buffer % Pow2(8 - cur) == 0
    requires value == BytesValue(out) * Pow2(cur) + buffer / Pow2(8 - cur)
    ensures ReadsAs(count, value, padding, if cur != 0 && (padding + cur) % 8 != 0 then out + [buffer] else out)
  {
    assert Pow2(cur) * Pow2(8 - cur) == 256 by { Pow2Add(cur, 8 - cur); Pow2Table(); }
    BytesSnoc(out, buffer);
    DecodedAlgebra(value, BytesValue(out), buffer / Pow2(8 - cur), buffer, Pow2(cur), Pow2(8 - cur));
  }

  lemma DecodedAll(t: Traits, text: string, out: seq<Byte>, cur: nat, buffer: Byte)
    requires Decoded(t, DigitsIn(t, text), out, cur, buffer)
    ensures Decodes(t, text, if cur != 0 && (EqualsIn(text) * t.group + cur) % 8 != 0 then out + [buffer] else out)
  {
    var ds := DigitsIn(t, text);
    DecodedCount(t, ds, out, cur, buffer);
    DecodedValue(t, ds, out, cur, buffer);
    DecodedNumbers(|ds| * t.group, DigitsValue(ds, t.group), EqualsIn(text) * t.group, out, cur, buffer);
  }

  /** The source's `decode`. */
  method Decode(t: Traits, text: string) returns (out: seq<Byte>)
    requires t.Valid()
    ensures Decodes(t, text, out)
  {
    var cur, buffer, trailingEqual;
    out, cur, buffer, trailingEqual := DecodeDigits(t, text);
    DecodedAll(t, text, out, cur, buffer);
    if cur != 0 {
      var trailingBits := trailingEqual * t.group + cur;
      if trailingBits % 8 != 0 {
        out := out + [buffer];
      }
    }
  }

  // ---------- round trip ----------

  lemma {:induction false} SpelledDigits(t: Traits, ds: seq<int>)
    requires t.Valid() && AreDigits(t, ds)
    ensures DigitsIn(t, Spell(t, ds)) == ds && EqualsIn(Spell(t, ds)) == 0
  {
    if ds != [] {
      var k := |ds| - 1;
      SpelledDigits(t, ds[..k]);
      var c := t.encode(ds[k]);
      assert t.decode(c) == ds[k];
      assert c != '=';
      assert Spell(t, ds)[..k] == Spell(t, ds[..k]);
    }
  }

  lemma {:induction false} PaddedDigits(t: Traits, s: string, n: nat)
    requires t.decode('=') == -1
    ensures DigitsIn(t, s + Equals(n)) == DigitsIn(t, s) && EqualsIn(s + Equals(n)) == EqualsIn(s) + n
  {
    if n == 0 {
      assert s + Equals(0) == s;
    } else {
      PaddedDigits(t, s, n - 1);
      assert (s + Equals(n))[..|s + Equals(n)| - 1] == s + Equals(n - 1);
    }
  }

  lemma SpellingDigits(t: Traits, ds: seq<int>, n: nat)
    requires t.Valid() && AreDigits(t, ds)
    ensures DigitsIn(t, Spell(t, ds) + Equals(n)) == ds && EqualsIn(Spell(t, ds) + Equals(n)) == n
  {
    SpelledDigits(t, ds);
    PaddedDigits(t, Spell(t, ds), n);
  }

  /** Characters that the decoder passes over. */
  predicate Ignorable(t: Traits, c: char) {
    c != '=' && t.decode(c) == -1
  }

  function Strip(t: Traits, text: string): string {
    if text == "" then ""
    else Strip(t, text[..|text| - 1]) + if Ignorable(t, text[|text| - 1]) then "" else [text[|text| - 1]]
  }

  lemma {:induction false} StripKeeps(t: Traits, text: string)
    requires t.Valid()
    ensures DigitsIn(t, Strip(t, text)) == DigitsIn(t, text) && EqualsIn(Strip(t, text)) == EqualsIn(text)
  {
    if text != "" {
      var k := |text| - 1;
      StripKeeps(t, text[..k]);
      var s := Strip(t, text[..k]);
      assert (s + [text[k]])[..|s|] == s && s + "" == s;
    }
  }

  /** Inserting ignorable characters anywhere leaves the stripped text as it was. */
  lemma {:induction false} StripNoise(t: Traits, pre: string, noise: string, post: string)
    requires forall i :: 0 <= i < |noise| ==> Ignorable(t, noise[i])
    ensures Strip(t, pre + noise + post) == Strip(t, pre + post)
    decreases |noise| + |post|
  {
    var s := pre + noise + post;
    if post != "" {
      var k := |post| - 1;
      StripNoise(t, pre, noise, post[..k]);
      assert s[..|s| - 1] == pre + noise + post[..k];
      assert (pre + post)[..|pre + post| - 1] == pre + post[..k];
    } else if noise != "" {
      var k := |noise| - 1;
      StripNoise(t, pre, noise[..k], "");
      assert s[..|s| - 1] == pre + noise[..k] + "";
      assert pre + post == pre + "";
    } else {
      assert s == pre + post;
    }
  }

  lemma ReadBack(v: seq<Byte>, count: nat, value: int, z: nat, padding: nat, w: seq<Byte>)
    requires z < 6 && count == 8 * |v| + z && value == BytesValue(v) * Pow2(z) && (padding + count) % 8 == 0
    requires ReadsAs(count, value, padding, w)
    ensures w == v
  {
    ModUnique(value, BytesValue(v), 0, Pow2(z));
    BytesUnique(v, w);
  }

  /** Padding stands for the digits that complete a whole number of bytes. */
  lemma PaddingCompletes(g: nat, n: nat)
    requires 4 <= g <= 6
    ensures (PaddingOf(g, n) * g + n * g) % 8 == 0
  {
    var q := Quantum(g);
    var k := (PaddingOf(g, n) + n) / q;
    assert PaddingOf(g, n) + n == k * q by { WholeQuanta(n, q); }
    var m := if g == 5 then 5 else if g == 4 then 1 else 3;
    assert PaddingOf(g, n) * g + n * g == (PaddingOf(g, n) + n) * g == k * (q * g) == k * m * 8;
    ModUnique(PaddingOf(g, n) * g + n * g, k * m, 0, 8);
  }

  lemma WholeQuanta(n: nat, q: nat)
    requires q > 0
    ensures (q - n % q) % q + n == ((q - n % q) % q + n) / q * q
  {
    var r := n % q;
    var k := if r == 0 then n / q else n / q + 1;
    if r == 0 {
      ModUnique(q, 1, 0, q);
    } else {
      ModUnique(q - r, 0, q - r, q);
    }
    assert (q - r) % q + n == k * q;
    ModUnique((q - r) % q + n, k, 0, q);
  }

  /** Noise leaves the digits and the padding of an encoded text as they are. */
  lemma NoisyDigits(t: Traits, ds: seq<int>, n: nat, noisy: string)
    requires t.Valid() && AreDigits(t, ds) && Strip(t, noisy) == Strip(t, Spell(t, ds) + Equals(n))
    ensures DigitsIn(t, noisy) == ds && EqualsIn(noisy) == n
  {
    StripKeeps(t, noisy);
    StripKeeps(t, Spell(t, ds) + Equals(n));
    SpellingDigits(t, ds, n);
  }

  lemma ReadBackDigits(t: Traits, v: seq<Byte>, ds: seq<int>, w: seq<Byte>)
    requires 4 <= t.group <= 6 && Regroups(t, v, ds)
    requires ReadsAs(|ds| * t.group, DigitsValue(ds, t.group), PaddingOf(t.group, |ds|) * t.group, w)
    ensures w == v
  {
    PaddingCompletes(t.group, |ds|);
    ReadBack(v, |ds| * t.group, DigitsValue(ds, t.group), |ds| * t.group - 8 * |v|, PaddingOf(t.group, |ds|) * t.group,
        w);
  }

  /** Decoding an encoded text returns the bytes, whatever ignorable characters have been inserted in it. */
  lemma RoundTrip(t: Traits, v: seq<Byte>, ds: seq<int>, text: string, noisy: string, w: seq<Byte>)
    requires t.Valid() && Encodes(t, v, ds, text) && Strip(t, noisy) == Strip(t, text) && Decodes(t, noisy, w)
    ensures w == v
  {
    NoisyDigits(t, ds, PaddingOf(t.group, |ds|), noisy);
    ReadBackDigits(t, v, ds, w);
  }

  lemma SameLength(g: nat, m: nat, n: nat, k: nat)
    requires 4 <= g <= 6 && 0 <= m * g - 8 * n < g && 0 <= m * g - 8 * k < g
    ensures n == k
  {
  }

  lemma RegroupsInjective(t: Traits, v: seq<Byte>, w: seq<Byte>, ds: seq<int>)
    requires 4 <= t.group <= 6 && Regroups(t, v, ds) && Regroups(t, w, ds)
    ensures v == w
  {
    SameLength(t.group, |ds|, |v|, |w|);
    MulCancel(BytesValue(v), BytesValue(w), Pow2(|ds| * t.group - 8 * |v|));
    BytesUnique(v, w);
  }

  /** Encoding loses nothing: different bytes have different texts. */
  lemma EncodeInjective(t: Traits, v: seq<Byte>, ds: seq<int>, w: seq<Byte>, es: seq<int>, text: string)
    requires t.Valid() && Encodes(t, v, ds, text) && Encodes(t, w, es, text)
    ensures v == w
  {
    SpellingDigits(t, ds, PaddingOf(t.group, |ds|));
    SpellingDigits(t, es, PaddingOf(t.group, |es|));
    RegroupsInjective(t, v, w, ds);
  }

  lemma SameCount(g: nat, m: nat, n: nat, k: nat)
    requires g > 0 && 0 <= m * g - k < g && 0 <= n * g - k < g
    ensures m == n
  {
    assert (m - n) * g == m * g - n * g;
    MultipleBounds(m - n, g);
  }

  lemma {:induction false} DigitsUnique(t: Traits, ds: seq<int>, es: seq<int>)
    requires |ds| == |es| && AreDigits(t, ds) && AreDigits(t, es)
    requires DigitsValue(ds, t.group) == DigitsValue(es, t.group)
    ensures ds == es
  {
    if ds != [] {
      var k, p := |ds| - 1, Pow2(t.group);
      var a, b := DigitsValue(ds[..k], t.group), DigitsValue(es[..k], t.group);
      ModUnique(a * p + ds[k], a, ds[k], p);
      ModUnique(b * p + es[k], b, es[k], p);
      DigitsUnique(t, ds[..k], es[..k]);
      assert ds == ds[..k] + [ds[k]] && es == es[..k] + [es[k]];
    }
  }

  /** The encoding of given bytes is determined, character by character. */
  lemma EncodesOnce(t: Traits, v: seq<Byte>, ds: seq<int>, text: string, es: seq<int>, other: string)
    requires t.Valid() && Encodes(t, v, ds, text) && Encodes(t, v, es, other)
    ensures ds == es && text == other
  {
    SameCount(t.group, |ds|, |es|, 8 * |v|);
    DigitsUnique(t, ds, es);
  }

  // ---------- the three bases ----------

  const UPPER := "ABCDEFGHIJKLMNOPQRSTUVWXYZ"
  const LOWER := "abcdefghijklmnopqrstuvwxyz"
  const DECIMAL := "0123456789"

  datatype Base = B16 | B32 | B64

  function Dictionary(b: Base): (s: string)
    ensures |s| == match b case B16 => 16 case B32 => 32 case B64 => 64
  {
    match b
    case B16 => DECIMAL + "ABCDEF"
    case B32 => UPPER + "234567"
    case B64 => UPPER + LOWER + DECIMAL + "+/"
  }

  function DecodeDigit(b: Base, c: char): (d: int)
    ensures -1 <= d < |Dictionary(b)|
  {
    match b
    case B16 =>
      if '0' <= c <= '9' then c as int - '0' as int
      else if 'A' <= c <= 'F' then c as int - 'A' as int + 10
      else -1
    case B32 =>
      if 'A' <= c <= 'Z' then c as int - 'A' as int
      else if '2' <= c <= '7' then c as int - '2' as int + 26
      else -1
    case B64 =>
      if 'A' <= c <= 'Z' then c as int - 'A' as int
      else if 'a' <= c <= 'z' then c as int - 'a' as int + 26
      else if '0' <= c <= '9' then c as int - '0' as int + 52
      else if c == '+' then 62
      else if c == '/' then 63
      else -1
  }

  function TraitsOf(b: Base): Traits {
    Traits(match b case B16 => 4 case B32 => 5 case B64 => 6,
           (d: int) => if 0 <= d < |Dictionary(b)| then Dictionary(b)[d] else '=',
           (c: char) => DecodeDigit(b, c))
  }

  lemma UpperAt(d: int)
    requires 0 <= d < 26
    ensures UPPER[d] == ('A' as int + d) as char
  {
  }

  lemma LowerAt(d: int)
    requires 0 <= d < 26
    ensures LOWER[d] == ('a' as int + d) as char
  {
  }

  lemma DecimalAt(d: int)
    requires 0 <= d < 10
    ensures DECIMAL[d] == ('0' as int + d) as char
  {
  }

  /** Decoding a digit undoes encoding it. */
  lemma DigitRoundTrip(b: Base, d: int)
    requires 0 <= d < |Dictionary(b)|
    ensures DecodeDigit(b, Dictionary(b)[d]) == d
  {
    match b
    case B16 =>
      if d < 10 { DecimalAt(d); }
    case B32 =>
      if d < 26 { UpperAt(d); }
    case B64 =>
      Digit64(d);
  }

  lemma Digit64(d: int)
    requires 0 <= d < 64
    ensures DecodeDigit(B64, Dictionary(B64)[d]) == d
  {
    if d < 26 {
      UpperAt(d);
      assert Dictionary(B64)[d] == UPPER[d];
    } else if d < 52 {
      LowerAt(d - 26);
      assert Dictionary(B64)[d] == LOWER[d - 26];
    } else if d < 62 {
      DecimalAt(d - 52);
      assert Dictionary(B64)[d] == DECIMAL[d - 52];
    }
  }

  lemma TraitsValid(b: Base)
    ensures TraitsOf(b).Valid() && Pow2(TraitsOf(b).group) == |Dictionary(b)|
  {
    Pow2Table();
    forall d | 0 <= d < |Dictionary(b)| ensures TraitsOf(b).decode(TraitsOf(b).encode(d)) == d {
      DigitRoundTrip(b, d);
    }
  }

  /** Encode, then decode. */
  method EncodeDecode(b: Base, v: seq<Byte>) returns (text: string, w: seq<Byte>)
    ensures w == v && |text| == EncodedSize(TraitsOf(b).group, |v|)
  {
    TraitsValid(b);
    ghost var ds;
    text, ds := Encode(TraitsOf(b), v);
    w := Decode(TraitsOf(b), text);
    RoundTrip(TraitsOf(b), v, ds, text, text, w);
    EncodedLength(TraitsOf(b), v, ds, text);
  }
}
