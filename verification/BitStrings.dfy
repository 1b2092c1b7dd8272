/** Byte and digit strings as numbers, most significant bit first, and the machine operations of
    lib/util/basen.h that move bits between them. */
module BitStrings {
  import opened Arithmetic

  type Byte = x: int | 0 <= x < 256

  /** The number whose binary digits are the bytes of v in turn. */
  function BytesValue(v: seq<Byte>): (n: nat) {
    if v == [] then 0 else BytesValue(v[..|v| - 1]) * 256 + v[|v| - 1]
  }

  /** The same for digits of g bits each. */
  function DigitsValue(ds: seq<int>, g: nat): int {
    if ds == [] then 0 else DigitsValue(ds[..|ds| - 1], g) * Pow2(g) + ds[|ds| - 1]
  }

  lemma BytesSnoc(v: seq<Byte>, x: Byte)
    ensures BytesValue(v + [x]) == BytesValue(v) * 256 + x
  {
    assert (v + [x])[..|v|] == v;
  }

  lemma DigitsSnoc(ds: seq<int>, d: int, g: nat)
    ensures DigitsValue(ds + [d], g) == DigitsValue(ds, g) * Pow2(g) + d
  {
    assert (ds + [d])[..|ds|] == ds;
  }

  /** Equally long byte strings that spell the same number are equal. */
  lemma {:induction false} BytesUnique(v: seq<Byte>, w: seq<Byte>)
    requires |v| == |w| && BytesValue(v) == BytesValue(w)
    ensures v == w
  {
    if v != [] {
      var k := |v| - 1;
      BytesUnique(v[..k], w[..k]);
      assert v == v[..k] + [v[k]] && w == w[..k] + [w[k]];
    }
  }

  // ---------- machine operations on a signed char, seen as its unsigned byte ----------

  function Signed(x: Byte): int {
    if x < 128 then x else x - 256
  }

  /** Bitwise or of the low n bits. */
  function Or(a: int, b: int, n: nat): int
    decreases n
  {
    if n == 0 then 0 else 2 * Or(a / 2, b / 2, n - 1) + (if a % 2 == 1 || b % 2 == 1 then 1 else 0)
  }

  lemma {:induction false} OrZero(a: int, n: nat)
    requires 0 <= a < Pow2(n)
    ensures Or(a, 0, n) == a
  {
    if n > 0 { OrZero(a / 2, n - 1); }
  }

  lemma OrEven(a: int, b: int, n: nat)
    requires n > 0
    ensures Or(2 * a, b, n) == 2 * Or(a, b / 2, n - 1) + b % 2
  {
    assert 2 * a / 2 == a && 2 * a % 2 == 0;
  }

  /** Or of two numbers that share no bit is their sum. */
  lemma {:induction false} OrDisjoint(h: int, a: int, b: int, k: nat, n: nat)
    requires k <= n && 0 <= b < Pow2(k) && 0 <= h && a == h * Pow2(k) < Pow2(n)
    ensures Or(a, b, n) == a + b
  {
    if k == 0 {
      OrZero(h, n);
    } else {
      var half := h * Pow2(k - 1);
      assert a == 2 * half;
      OrDisjoint(h, half, b / 2, k - 1, n - 1);
      OrEven(half, b, n);
    }
  }

  // ---------- taking a digit out of bytes ----------

  function ExtractPartialBits(x: Byte, start: nat, count: nat): int
    requires start + count < 8
  {
    var t := Signed(x) / Pow2(8 - count - start) % 256;
    t % Pow2(count)
  }

  function ExtractOverlappingBits(previous: Byte, next: Byte, start: nat, count: nat): int
    requires start <= 8 <= start + count < 16
  {
    var inNext := count - (8 - start);
    var t1 := Signed(previous) * Pow2(inNext) % 256;
    var t2 := Signed(next) / Pow2(8 - inNext) % Pow2(inNext);
    Or(t1, t2, 8) % Pow2(count)
  }

  lemma ByteOfParts(k: nat, n: nat)
    requires k + n <= 8
    ensures Pow2(8 - k - n) * Pow2(n) * Pow2(k) == 256
  {
    Pow2Add(8 - k - n, n);
    Pow2Add(8 - k, k);
    Pow2Table();
  }

  lemma SignedShiftAlgebra(x: int, pk: int, pn: int, pr: int)
    requires pk > 0 && pn > 0
    ensures (x - pr * pn * pk) / pk % pn == x / pk % pn
  {
    DivShift(x, pr * pn, pk);
    DivShift(x / pk, pr, pn);
  }

  /** A signed right shift keeps the bits of the byte below the sign. */
  lemma SignedShift(x: Byte, k: nat, n: nat)
    requires k + n <= 8
    ensures Signed(x) / Pow2(k) % Pow2(n) == x / Pow2(k) % Pow2(n)
  {
    ByteOfParts(k, n);
    SignedShiftAlgebra(x, Pow2(k), Pow2(n), Pow2(8 - k - n));
  }

  lemma PartialAlgebra(sx: int, x: int, pg: int, pk: int, pr: int)
    requires pg > 0 && pk > 0 && pr > 0 && pg * pr == 256 && sx / pk % pg == x / pk % pg
    ensures 0 <= sx / pk % 256 % pg < pg
    ensures pg * pk > 0 && x / (pg * pk) * pg + sx / pk % 256 % pg == x / pk
  {
    ModMod(sx / pk, pg, pr);
    DivDiv(x, pg, pk);
  }

  /** The digit lies inside x: the bits above it, then the digit, are the bits of x down to its end. */
  lemma PartialBits(x: Byte, start: nat, g: nat)
    requires start + g < 8
    ensures 0 <= ExtractPartialBits(x, start, g) < Pow2(g)
    ensures x / Pow2(8 - start) * Pow2(g) + ExtractPartialBits(x, start, g) == x / Pow2(8 - start - g)
  {
    var k := 8 - start - g;
    assert Pow2(g) * Pow2(8 - g) == 256 by { Pow2Add(g, 8 - g); Pow2Table(); }
    assert Pow2(g) * Pow2(k) == Pow2(8 - start) by { Pow2Add(g, k); }
    SignedShift(x, k, g);
    PartialAlgebra(Signed(x), x, Pow2(g), Pow2(k), Pow2(8 - g));
  }

  lemma LeftShiftAlgebra(x: int, pn: int, pr: int)
    requires pn > 0 && pr > 0
    ensures pr * pn > 0 && x * pn % (pr * pn) == x % pr * pn
  {
    ModProduct(x, 0, pr, pn);
  }

  lemma SignedLeftShift(x: Byte, n: nat)
    requires n <= 8
    ensures Signed(x) * Pow2(n) % 256 == x % Pow2(8 - n) * Pow2(n)
  {
    Pow2Table();
    Pow2Add(8 - n, n);
    LeftShiftAlgebra(Signed(x), Pow2(n), Pow2(8 - n));
    DivShift(x, Pow2(n), Pow2(8 - n));
  }

  /** Bits of y that reach into the digit. */
  lemma HighBits(y: Byte, n: nat)
    requires n <= 8
    ensures Signed(y) / Pow2(8 - n) % Pow2(n) == y / Pow2(8 - n) < Pow2(n)
  {
    Pow2Table();
    SignedShift(y, 8 - n, n);
    Pow2Add(n, 8 - n);
    QuotientBelow(y, Pow2(n), Pow2(8 - n));
  }

  lemma OrOfParts(x: Byte, y: Byte, n: nat)
    requires n <= 8
    ensures Or(Signed(x) * Pow2(n) % 256, Signed(y) / Pow2(8 - n) % Pow2(n), 8) == x % Pow2(8 - n) * Pow2(n) +
        y / Pow2(8 - n)
  {
    Pow2Table();
    HighBits(y, n);
    SignedLeftShift(x, n);
    var h := x % Pow2(8 - n);
    OrDisjoint(h, h * Pow2(n), y / Pow2(8 - n), n, 8);
  }

  lemma OverlapDigit(x: int, h: int, t: int, pm: int, pn: int, pr: int, pg: int, pq: int)
    requires pm > 0 && pn > 0 && pr > 0 && 0 <= t < pn && pm * pn == pg && pm * pr == pq
    requires pq > 0 && h == x % pq
    ensures pg > 0 && (h * pn + t) % pg == x % pm * pn + t
  {
    ModProduct(h, t, pm, pn);
    ModMod(x, pm, pr);
  }

  lemma OverlappingParts(x: Byte, y: Byte, start: nat, g: nat, n: nat)
    requires g < 8 && 8 - g <= start < 8 && n == start + g - 8
    ensures ExtractOverlappingBits(x, y, start, g) == (x % Pow2(8 - n) * Pow2(n) + y / Pow2(8 - n)) % Pow2(g)
  {
    assert n == g - (8 - start);
    OrOfParts(x, y, n);
  }

  lemma OverlappingValue(x: Byte, y: Byte, start: nat, g: nat)
    requires g < 8 && 8 - g <= start < 8
    ensures ExtractOverlappingBits(x, y, start, g) == x % Pow2(8 - start) * Pow2(start + g - 8) +
        y / Pow2(16 - start - g)
  {
    var m, n := 8 - start, start + g - 8;
    assert 8 - n == 16 - start - g && m + n == g;
    OverlappingParts(x, y, start, g, n);
    HighBits(y, n);
    Pow2Add(m, n);
    Pow2Add(m, 8 - n - m);
    OverlapDigit(x, x % Pow2(8 - n), y / Pow2(8 - n), Pow2(m), Pow2(n), Pow2(8 - n - m), Pow2(g), Pow2(8 - n));
  }

  lemma Recombine(x: int, t: int, pm: int, pn: int)
    requires pm > 0 && pn > 0 && 0 <= t < pn
    ensures 0 <= x % pm * pn + t < pm * pn
    ensures x / pm * (pm * pn) + (x % pm * pn + t) == x * pn + t
  {
    var q, r := x / pm, x % pm;
    assert x * pn == q * (pm * pn) + r * pn by { assert x == q * pm + r; }
    MulMono(r, pm - 1, pn);
    MulMono(0, r, pn);
    assert (pm - 1) * pn == pm * pn - pn;
  }

  /** The digit takes the rest of x and the first bits of y. */
  lemma OverlappingBits(x: Byte, y: Byte, start: nat, g: nat)
    requires g < 8 && 8 - g <= start < 8
    ensures 0 <= ExtractOverlappingBits(x, y, start, g) < Pow2(g)
    ensures x / Pow2(8 - start) * Pow2(g) + ExtractOverlappingBits(x, y, start, g) == x * Pow2(start + g - 8) +
        y / Pow2(16 - start - g)
  {
    var m, n := 8 - start, start + g - 8;
    assert 8 - n == 16 - start - g && m + n == g;
    OverlappingValue(x, y, start, g);
    Pow2Add(m, n);
    HighBits(y, n);
    Recombine(x, y / Pow2(8 - n), Pow2(m), Pow2(n));
  }

  // ---------- putting a digit into bytes ----------

  lemma FillBound(h: int, d: int, pg: int, pk: int, pc: int, p: int)
    requires pg > 0 && pk > 0 && 0 <= d < pg && p == pg * pk && 0 <= h < pc && pc * p == 256
    ensures 0 <= d * pk < p <= 256 && h * p + d * pk < 256
  {
    MulMono(d, pg - 1, pk);
    MulMono(0, d, pk);
    MulMono(h + 1, pc, p);
    MulMono(1, pc, p);
    assert (pg - 1) * pk == p - pk && (h + 1) * p == h * p + p;
  }

  lemma FillSplit(buffer: int, h: int, d: int, pg: int, pk: int, p: int)
    requires pk > 0 && p == pg * pk && buffer == h * p
    ensures (buffer + d * pk) / pk == h * pg + d && (buffer + d * pk) % pk == 0
  {
    assert h * (pg * pk) == h * pg * pk;
    ModUnique(buffer + d * pk, h * pg + d, 0, pk);
  }

  /** Room below the bits already in the buffer. */
  lemma FillAlgebra(buffer: Byte, d: int, pg: int, pk: int, pc: int, p: int)
    requires pg > 0 && pk > 0 && pc > 0 && 0 <= d < pg && p == pg * pk && pc * p == 256 && buffer % p == 0
    ensures var h := buffer / p;
            0 <= h && buffer == h * p && 0 <= d * pk < p <= 256 && d * pk % 256 == d * pk &&
            buffer + d * pk < 256 && (buffer + d * pk) / pk == h * pg + d && (buffer + d * pk) % pk == 0
  {
    var h, e := buffer / p, d * pk;
    QuotientBelow(buffer, pc, p);
    FillBound(h, d, pg, pk, pc, p);
    FillSplit(buffer, h, d, pg, pk, p);
    ModUnique(e, 0, e, 256);
  }

  /** A digit that fits in the current byte: what the buffer becomes. */
  lemma FillValue(buffer: Byte, d: int, cur: nat, g: nat)
    requires cur + g <= 8 && 0 <= d < Pow2(g) && buffer % Pow2(8 - cur) == 0
    ensures var r := Or(buffer, d * Pow2(8 - cur - g) % 256, 8);
            r == buffer + d * Pow2(8 - cur - g) && 0 <= r < 256 && r % Pow2(8 - cur - g) == 0 &&
            r / Pow2(8 - cur - g) == buffer / Pow2(8 - cur) * Pow2(g) + d
  {
    var k := 8 - cur - g;
    Pow2Table();
    Pow2Add(g, k);
    Pow2Add(cur, 8 - cur);
    FillAlgebra(buffer, d, Pow2(g), Pow2(k), Pow2(cur), Pow2(8 - cur));
    OrDisjoint(buffer / Pow2(8 - cur), buffer, d * Pow2(k), 8 - cur, 8);
  }

  /** A digit that straddles two bytes: the byte it completes and the one it begins. */
  lemma StraddleValue(buffer: Byte, d: int, cur: nat, g: nat)
    requires g < 8 && cur < 8 < cur + g && 0 <= d < Pow2(g) && buffer % Pow2(8 - cur) == 0
    ensures var n := cur + g - 8; var hi, lo := Or(buffer, d / Pow2(n), 8), d * Pow2(8 - n) % 256;
            hi == buffer + d / Pow2(n) && 0 <= hi < 256 && 0 <= lo < 256 &&
            lo == d % Pow2(n) * Pow2(8 - n) && lo % Pow2(8 - n) == 0 && lo / Pow2(8 - n) == d % Pow2(n)
  {
    var n := cur + g - 8;
    var t := d / Pow2(n);
    Pow2Table();
    Pow2Add(8 - cur, n);
    QuotientBelow(d, Pow2(8 - cur), Pow2(n));
    Pow2Add(cur, 8 - cur);
    FillAlgebra(buffer, t, Pow2(8 - cur), 1, Pow2(cur), Pow2(8 - cur));
    OrDisjoint(buffer / Pow2(8 - cur), buffer, t, 8 - cur, 8);
    Pow2Add(n, 8 - n);
    LeftShiftAlgebra(d, Pow2(8 - n), Pow2(n));
    ModUnique(d % Pow2(n) * Pow2(8 - n), d % Pow2(n), 0, Pow2(8 - n));
  }
}
