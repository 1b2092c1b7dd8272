/** The two-limb 128-bit integer of lib/util/uint128_t.cpp. Every operator is related to the number
    V(u) = upper * 2^64 + lower. */
module Uint128 {
  import opened Arithmetic
  import opened BitStrings
  import opened Numerals

  const B: nat := 0x1_0000_0000_0000_0000
  const MODULUS: nat := 0x1_0000_0000_0000_0000_0000_0000_0000_0000

  datatype Option<T> = None | Some(value: T)

  type U64 = x: nat | x < 0x1_0000_0000_0000_0000

  datatype U128 = U128(upper: U64, lower: U64)

  const ZERO := U128(0, 0)
  const ONE := U128(0, 1)

  /** upper * 2^64 + lower; the product is written so that proofs unfold it only through `Value`. */
  ghost function V(u: U128): (n: nat)
    ensures n < MODULUS
  {
    TimesIsProduct(u.upper, B);
    Times(u.upper, B) + u.lower
  }

  lemma Value(u: U128)
    ensures V(u) == u.upper * 0x1_0000_0000_0000_0000 + u.lower
  {
    TimesIsProduct(u.upper, B);
  }

  lemma ValueUnique(a: U128, b: U128)
    requires V(a) == V(b)
    ensures a == b
  {
    Value(a);
    Value(b);
  }

  lemma ZeroValue(a: U128)
    ensures V(a) == 0 <==> a == ZERO
    ensures V(a) == 1 <==> a == ONE
  {
    Value(a);
  }

  // ---------- comparison ----------

  predicate Less(a: U128, b: U128) {
    if a.upper == b.upper then a.lower < b.lower else a.upper < b.upper
  }

  predicate AtLeast(a: U128, b: U128) {
    Less(b, a) || a == b
  }

  lemma OrderIsValueOrder(a: U128, b: U128)
    ensures Less(a, b) <==> V(a) < V(b)
    ensures AtLeast(a, b) <==> V(a) >= V(b)
  {
    Value(a);
    Value(b);
  }

  // ---------- addition and subtraction ----------

  function Wrap64(x: int): U64 {
    x % 0x1_0000_0000_0000_0000
  }

  function Add(a: U128, b: U128): U128 {
    var lower := Wrap64(a.lower + b.lower);
    U128(Wrap64(a.upper + b.upper + (if lower < a.lower then 1 else 0)), lower)
  }

  function Sub(a: U128, b: U128): U128 {
    var lower := Wrap64(a.lower - b.lower);
    U128(Wrap64(a.upper - b.upper - (if lower > a.lower then 1 else 0)), lower)
  }

  /** Addition of two limbs, with the carry the comparison detects. */
  lemma LimbSum(x: U64, y: U64)
    ensures x + y == Wrap64(x + y) + (if Wrap64(x + y) < x then 0x1_0000_0000_0000_0000 else 0)
  {
    if x + y < 0x1_0000_0000_0000_0000 {
      ModUnique(x + y, 0, x + y, 0x1_0000_0000_0000_0000);
    } else {
      ModUnique(x + y, 1, x + y - 0x1_0000_0000_0000_0000, 0x1_0000_0000_0000_0000);
    }
  }

  lemma LimbDifference(x: U64, y: U64)
    ensures x - y == Wrap64(x - y) - (if Wrap64(x - y) > x then 0x1_0000_0000_0000_0000 else 0)
  {
    if x >= y {
      ModUnique(x - y, 0, x - y, 0x1_0000_0000_0000_0000);
    } else {
      ModUnique(x - y, -1, x - y + 0x1_0000_0000_0000_0000, 0x1_0000_0000_0000_0000);
    }
  }

  /** Reducing the upper limb reduces the number. */
  lemma UpperWraps(x: int, l: U64, n: int)
    requires n == x * 0x1_0000_0000_0000_0000 + l
    ensures Wrap64(x) * 0x1_0000_0000_0000_0000 + l == n % MODULUS
  {
    var q, r := x / 0x1_0000_0000_0000_0000, x % 0x1_0000_0000_0000_0000;
    ModUnique(n, q, r * 0x1_0000_0000_0000_0000 + l, MODULUS);
  }

  lemma AddValue(a: U128, b: U128)
    ensures V(Add(a, b)) == (V(a) + V(b)) % MODULUS
  {
    Value(a);
    Value(b);
    Value(Add(a, b));
    LimbSum(a.lower, b.lower);
    var lower := Wrap64(a.lower + b.lower);
    UpperWraps(a.upper + b.upper + (if lower < a.lower then 1 else 0), lower, V(a) + V(b));
  }

  lemma SubValue(a: U128, b: U128)
    ensures V(Sub(a, b)) == (V(a) - V(b)) % MODULUS
  {
    Value(a);
    Value(b);
    Value(Sub(a, b));
    LimbDifference(a.lower, b.lower);
    var lower := Wrap64(a.lower - b.lower);
    UpperWraps(a.upper - b.upper - (if lower > a.lower then 1 else 0), lower, V(a) - V(b));
  }

  // ---------- shifts ----------

  /** A limb shifted left by the power p, and right by the power q. */
  function Up(x: U64, p: nat): U64 {
    Wrap64(x * p)
  }

  function Down(x: U64, q: nat): U64
    requires q >= 1
  {
    QuotientSmaller(x, q);
    x / q
  }

  lemma QuotientSmaller(x: nat, p: nat)
    requires p >= 1
    ensures 0 <= x / p <= x
  {
    var q := x / p;
    assert x == q * p + x % p;
    MulMono(1, p, q);
  }

  /** The limb sum of a left shift does not overflow. */
  lemma ShiftedLimbs(u: nat, l: nat, p: nat, q: nat, b: nat)
    requires p > 0 && q > 0 && p * q == b && 0 <= u < b && 0 <= l < b
    ensures u * p % b + l / q < b
    ensures l * p == l / q * b + l * p % b
    ensures u * p == u / q * b + u * p % b
  {
    LimbShift(u, p, q, b);
    LimbShift(l, p, q, b);
    QuotientBelow(l, p, q);
    MulMono(u % q, q - 1, p);
    assert (q - 1) * p == b - p;
  }

  lemma LimbShift(x: nat, p: nat, q: nat, b: nat)
    requires p > 0 && q > 0 && p * q == b
    ensures x * p % b == x % q * p && x * p == x / q * b + x * p % b
  {
    ModProduct(x, 0, q, p);
    assert q * p == b;
    assert x == x / q * q + x % q;
    assert x / q * q * p == x / q * (q * p);
  }

  /** The two limbs of a left shift by p, where p * q = 2^64. */
  function ShlLimbs(a: U128, p: nat, q: nat): U128
    requires q >= 1
  {
    U128(Wrap64(Up(a.upper, p) + Down(a.lower, q)), Up(a.lower, p))
  }

  function ShrLimbs(a: U128, p: nat, q: nat): U128
    requires p >= 1
  {
    U128(Down(a.upper, p), Wrap64(Up(a.upper, q) + Down(a.lower, p)))
  }

  function Shl(a: U128, rhs: U128): U128 {
    var shift := rhs.lower;
    if rhs.upper != 0 || shift >= 128 then ZERO
    else if shift == 64 then U128(a.lower, 0)
    else if shift == 0 then a
    else if shift < 64 then ShlLimbs(a, Pow2(shift), Pow2(64 - shift))
    else U128(Up(a.lower, Pow2(shift - 64)), 0)
  }

  function Shr(a: U128, rhs: U128): U128 {
    var shift := rhs.lower;
    if rhs.upper != 0 || shift >= 128 then ZERO
    else if shift == 64 then U128(0, a.upper)
    else if shift == 0 then a
    else if shift < 64 then ShrLimbs(a, Pow2(shift), Pow2(64 - shift))
    else U128(0, Down(a.upper, Pow2(shift - 64)))
  }

  lemma SplitPower(s: nat)
    requires s <= 64
    ensures Pow2(s) * Pow2(64 - s) == B
  {
    Pow2Add(s, 64 - s);
    SixtyFour();
  }

  lemma SixtyFour()
    ensures Pow2(64) == B
  {
    Pow2Table();
    Pow2Add(8, 8);
    Pow2Add(16, 16);
    Pow2Add(32, 32);
  }

  lemma ShlSmallAlgebra(u: int, l: int, p: int, uh: int, ul: int, lh: int, ll: int)
    requires u * p == uh * B + ul && l * p == lh * B + ll
    ensures (u * B + l) * p == uh * MODULUS + (ul + lh) * B + ll
  {
    assert (u * B + l) * p == (u * p) * B + l * p;
  }

  lemma ShlSmallLimbs(u: nat, l: nat, p: nat, q: nat)
    requires p > 0 && q > 0 && p * q == B && u < B && l < B
    ensures (u * p % B + l / q) % B * B + l * p % B == (u * B + l) * p % MODULUS
  {
    ShiftedLimbs(u, l, p, q, B);
    var uh, ul, lh, ll := u / q, u * p % B, l / q, l * p % B;
    ShlSmallAlgebra(u, l, p, uh, ul, lh, ll);
    SmallSum(ul, lh);
    Reduced((u * B + l) * p, uh, ul + lh, ll);
  }

  lemma SmallSum(x: int, y: int)
    requires 0 <= x + y < B
    ensures (x + y) % B == x + y
  {
  }

  lemma Reduced(n: int, k: int, u: int, l: int)
    requires n == k * MODULUS + u * B + l && 0 <= u < B && 0 <= l < B
    ensures n % MODULUS == u * B + l
  {
    ModUnique(n, k, u * B + l, MODULUS);
  }

  lemma ShlSmallValue(a: U128, p: nat, q: nat)
    requires p > 0 && q > 0 && p * q == B
    ensures V(ShlLimbs(a, p, q)) == V(a) * p % MODULUS
  {
    Value(a);
    Value(ShlLimbs(a, p, q));
    ShlSmallLimbs(a.upper, a.lower, p, q);
  }

  lemma ShlSmall(a: U128, s: nat)
    requires 0 < s < 64
    ensures V(Shl(a, U128(0, s))) == V(a) * Pow2(s) % MODULUS
  {
    SplitPower(s);
    ShlSmallValue(a, Pow2(s), Pow2(64 - s));
  }

  lemma ShlLargeAlgebra(u: int, l: int, p: int, k: int, r: int)
    requires l * p == k * B + r
    ensures (u * B + l) * (p * B) == (u * p + k) * MODULUS + r * B
  {
    assert (u * B + l) * (p * B) == u * p * MODULUS + (l * p) * B;
  }

  lemma ShlLargeLimbs(u: nat, l: nat, p: nat)
    requires p > 0 && u < B && l < B
    ensures l * p % B * B == (u * B + l) * (p * B) % MODULUS
  {
    var k, r := l * p / B, l * p % B;
    ShlLargeAlgebra(u, l, p, k, r);
    Reduced((u * B + l) * (p * B), u * p + k, r, 0);
  }

  lemma ShlLarge(a: U128, s: nat)
    requires 64 <= s < 128
    ensures V(Shl(a, U128(0, s))) == V(a) * Pow2(s) % MODULUS
  {
    assert Pow2(s) == Pow2(s - 64) * B by { SixtyFour(); Pow2Add(s - 64, 64); }
    Value(a);
    Value(Shl(a, U128(0, s)));
    ShlLargeLimbs(a.upper, a.lower, Pow2(s - 64));
    if s == 64 { SmallSum(a.lower, 0); }
  }

  lemma HighMultiple(v: nat, k: nat)
    requires k >= 128
    ensures v * Pow2(k) % MODULUS == 0
  {
    var p := Pow2(k - 128);
    assert Pow2(k) == p * MODULUS by { SixtyFour(); Pow2Add(64, 64); Pow2Add(k - 128, 128); }
    ModUnique(v * (p * MODULUS), v * p, 0, MODULUS);
  }

  lemma ShlBelow(a: U128, s: nat)
    requires s < 128
    ensures V(Shl(a, U128(0, s))) == V(a) * Pow2(s) % MODULUS
  {
    if s == 0 {
      ModUnique(V(a), 0, V(a), MODULUS);
    } else if s < 64 {
      ShlSmall(a, s);
    } else {
      ShlLarge(a, s);
    }
  }

  /** A left shift by s multiplies by 2^s modulo 2^128. */
  lemma ShlValue(a: U128, rhs: U128, s: nat)
    requires s == V(rhs)
    ensures V(Shl(a, rhs)) == V(a) * Pow2(s) % MODULUS
  {
    Value(rhs);
    if s < 128 {
      assert rhs == U128(0, s);
      ShlBelow(a, s);
    } else {
      HighMultiple(V(a), s);
      ZeroValue(ZERO);
    }
  }

  lemma ShrAlgebra(u: int, l: int, p: int, q: int, uh: int, ul: int, lh: int, ll: int)
    requires p > 0 && p * q == B && u == uh * p + ul && l == lh * p + ll && 0 <= ll < p
    ensures (u * B + l) / p == uh * B + (ul * q + lh)
  {
    var r := uh * B + (ul * q + lh);
    assert r * p == uh * p * B + ul * (q * p) + lh * p;
    assert u * B == uh * p * B + ul * B;
    ModUnique(u * B + l, r, ll, p);
  }

  lemma ShrSmallLimbs(u: nat, l: nat, p: nat, q: nat)
    requires p > 0 && q > 0 && p * q == B && u < B && l < B
    ensures u / p * B + (u * q % B + l / p) % B == (u * B + l) / p
  {
    ShiftedLimbs(u, l, q, p, B);
    LimbShift(u, q, p, B);
    ShrAlgebra(u, l, p, q, u / p, u % p, l / p, l % p);
    SmallSum(u * q % B, l / p);
  }

  lemma ShrSmallValue(a: U128, p: nat, q: nat)
    requires p > 0 && q > 0 && p * q == B
    ensures V(ShrLimbs(a, p, q)) == V(a) / p
  {
    Value(a);
    Value(ShrLimbs(a, p, q));
    ShrSmallLimbs(a.upper, a.lower, p, q);
  }

  lemma ShrSmall(a: U128, s: nat)
    requires 0 < s < 64
    ensures V(Shr(a, U128(0, s))) == V(a) / Pow2(s)
  {
    SplitPower(s);
    ShrSmallValue(a, Pow2(s), Pow2(64 - s));
  }

  lemma ShrLarge(a: U128, s: nat)
    requires 64 <= s < 128
    ensures V(Shr(a, U128(0, s))) == V(a) / Pow2(s)
  {
    SixtyFour();
    Pow2Add(s - 64, 64);
    Value(a);
    Value(Shr(a, U128(0, s)));
    DivDiv(V(a), Pow2(s - 64), B);
    ModUnique(V(a), a.upper, a.lower, B);
  }

  lemma ShiftedOut(a: nat, k: nat)
    requires a < MODULUS && k >= 128
    ensures a / Pow2(k) == 0
  {
    assert Pow2(128) == MODULUS by { SixtyFour(); Pow2Add(64, 64); }
    Pow2Mono(128, k);
    ModUnique(a, 0, a, Pow2(k));
  }

  lemma ShrBelow(a: U128, s: nat)
    requires s < 128
    ensures V(Shr(a, U128(0, s))) == V(a) / Pow2(s)
  {
    if s >= 64 {
      ShrLarge(a, s);
    } else if s > 0 {
      ShrSmall(a, s);
    }
  }

  /** A right shift by s divides by 2^s. */
  lemma ShrValue(a: U128, rhs: U128, s: nat)
    requires s == V(rhs)
    ensures V(Shr(a, rhs)) == V(a) / Pow2(s)
  {
    Value(rhs);
    if s < 128 {
      assert rhs == U128(0, s);
      ShrBelow(a, s);
    } else {
      ShiftedOut(V(a), s);
      ZeroValue(ZERO);
    }
  }

  // ---------- bit length ----------

  lemma BitLengthDouble(h: nat, l: nat)
    requires h > 0
    ensures BitLength(2 * h + l) == 1 + BitLength(h + l / 2)
  {
    assert (2 * h + l) / 2 == h + l / 2;
  }

  lemma {:induction false} BitLengthRaised(u: nat, l: nat, k: nat)
    requires u > 0 && l < Pow2(k)
    ensures BitLength(Raise(u, k) + l) == BitLength(u) + k && Raise(u, k) > 0
    decreases k
  {
    if k > 0 {
      BitLengthRaised(u, l / 2, k - 1);
      BitLengthDouble(Raise(u, k - 1), l);
    }
  }

  /** The source's `bits`. */
  method Bits(u: U128) returns (out: nat)
    ensures out == BitLength(V(u)) <= 128
  {
    SixtyFour();
    Value(u);
    out := 0;
    if u.upper != 0 {
      out := 64;
      BitLengthRaised(u.upper, u.lower, 64);
      RaiseIsProduct(u.upper, 64);
      var up: nat := u.upper;
      while up != 0
        invariant out + BitLength(up) == BitLength(V(u))
      {
        up := up / 2;
        out := out + 1;
      }
    } else {
      var low: nat := u.lower;
      while low != 0
        invariant out + BitLength(low) == BitLength(V(u))
      {
        low := low / 2;
        out := out + 1;
      }
    }
    Modulus128();
    BitLengthAtMost(V(u), 128);
  }

  lemma Modulus128()
    ensures Pow2(128) == MODULUS
  {
    SixtyFour();
    Pow2Add(64, 64);
  }

  lemma BitLengthAtMost(n: nat, k: nat)
    requires n < Pow2(k)
    ensures BitLength(n) <= k
  {
    if n > 0 {
      BitLengthBounds(n);
      Pow2Less(BitLength(n) - 1, k);
    }
  }

  // ---------- multiplication ----------

  const R: nat := 0x1_0000_0000

  function Lo(x: nat): nat { x % 0x1_0000_0000 }

  function Hi(x: nat): nat { x / 0x1_0000_0000 }

  /** Four 32-bit parts, most significant first. */
  predicate AreParts(p: seq<nat>) {
    |p| == 4 && forall i :: 0 <= i < 4 ==> p[i] < 0x1_0000_0000
  }

  function Join(p: seq<nat>): nat
    requires |p| == 4
  {
    p[0] * 0x1_0000_0000_0000_0000_0000_0000 + p[1] * 0x1_0000_0000_0000_0000 + p[2] * 0x1_0000_0000 + p[3]
  }

  function Split(u: U128): (p: seq<nat>)
    ensures AreParts(p) && Join(p) == V(u)
  {
    Value(u);
    [Hi(u.upper), Lo(u.upper), Hi(u.lower), Lo(u.lower)]
  }

  /** The low 128 bits of a product come from ten of the sixteen partial products. */
  lemma ProductExpands(a: int, b: int, c: int, d: int, e: int, f: int, g: int, h: int)
    ensures (a * 0x1_0000_0000_0000_0000_0000_0000 + b * 0x1_0000_0000_0000_0000 + c * 0x1_0000_0000 + d)
          * (e * 0x1_0000_0000_0000_0000_0000_0000 + f * 0x1_0000_0000_0000_0000 + g * 0x1_0000_0000 + h)
         == d * h + (d * g + c * h) * 0x1_0000_0000 + (d * f + c * g + b * h) * 0x1_0000_0000_0000_0000
          + (d * e + c * f + b * g + a * h) * 0x1_0000_0000_0000_0000_0000_0000
          + (c * e + b * f + a * g + (b * e + a * f) * 0x1_0000_0000 + a * e * 0x1_0000_0000_0000_0000) * MODULUS
  {
  }

  /** Four columns of 32-bit weights, each wide enough for its carries. */
  datatype Columns = Columns(first: U64, second: U64, third: U64, fourth: U64)

  function ColumnsValue(c: Columns): nat {
    c.first * 0x1_0000_0000_0000_0000_0000_0000 + c.second * 0x1_0000_0000_0000_0000 + c.third * 0x1_0000_0000 +
        c.fourth
  }

  /** The first column, moved to the top: what does not fit is a multiple of the modulus. */
  method FirstColumn(x: U64) returns (u: U128, ghost k: int)
    ensures x * 0x1_0000_0000_0000_0000_0000_0000 == V(u) + k * MODULUS
  {
    k := x * R / B;
    u := U128(Wrap64(x * R), 0);
    Value(u);
  }

  method ThirdColumn(x: U64) returns (u: U128)
    ensures V(u) == x * 0x1_0000_0000
  {
    var q, r := Hi(x), Lo(x);
    ModUnique(x * R, q, r * R, B);
    u := U128(q, Wrap64(x * R));
    Value(u);
  }

  /** Addition, with the multiple of the modulus it drops. */
  method Plus(a: U128, b: U128) returns (r: U128, ghost k: int)
    ensures V(r) + k * MODULUS == V(a) + V(b)
  {
    AddValue(a, b);
    r := Add(a, b);
    k := (V(a) + V(b)) / MODULUS;
  }

  /** The last step of `*`: add the columns, propagating carries. */
  method Combine(c: Columns) returns (r: U128, ghost k: int)
    ensures V(r) + k * MODULUS == ColumnsValue(c)
  {
    ghost var k1, k2, k3, k4;
    Value(U128(c.second, 0));
    Value(U128(0, c.fourth));
    var w, x;
    w, k1 := FirstColumn(c.first);
    x := ThirdColumn(c.third);
    r, k2 := Plus(w, x);
    r, k3 := Plus(r, U128(c.second, 0));
    r, k4 := Plus(r, U128(0, c.fourth));
    k := k1 + k2 + k3 + k4;
  }

  lemma ProductBelow(x: nat, y: nat)
    requires x < R && y < R
    ensures 0 <= x * y < B
  {
    var r := R - 1;
    MulMono(x, r, y);
    MulMono(y, r, r);
    assert r * y == y * r;
    assert 0 <= x * y <= r * r;
  }

  /** The partial products, filled in as the source does. */
  method FillProducts(top: seq<nat>, bottom: seq<nat>) returns (products: array2<U64>)
    requires AreParts(top) && AreParts(bottom)
    ensures products.Length0 == 4 && products.Length1 == 4
    ensures forall x, y :: 0 <= x < 4 && 0 <= y < 4 ==> products[3 - x, y] == top[x] * bottom[y]
  {
    products := new U64[4, 4];
    for y := 4 downto 0
      invariant forall x, j :: 0 <= x < 4 && y <= j < 4 ==> products[3 - x, j] == top[x] * bottom[j]
    {
      for x := 4 downto 0
        invariant forall i, j :: 0 <= i < 4 && y < j < 4 ==> products[3 - i, j] == top[i] * bottom[j]
        invariant forall i :: x <= i < 4 ==> products[3 - i, y] == top[i] * bottom[y]
      {
        ProductBelow(top[x], bottom[y]);
        products[3 - x, y] := top[x] * bottom[y];
      }
    }
  }

  lemma HalvesOf(x: U64)
    ensures x == Hi(x) * 0x1_0000_0000 + Lo(x) && Hi(x) < 0x1_0000_0000 && Lo(x) < 0x1_0000_0000
  {
  }

  /** The ten partial products below 2^128, added column by column. No column overflows 64 bits. */
  method AddRows(p00: U64, p01: U64, p02: U64, p03: U64, p11: U64, p12: U64, p13: U64, p22: U64, p23: U64, p33: U64)
      returns (c: Columns, ghost k: nat)
    ensures ColumnsValue(c) + k * MODULUS ==
      p03 + (p02 + p13) * 0x1_0000_0000 + (p01 + p12 + p23) * 0x1_0000_0000_0000_0000
          + (p00 + p11 + p22 + p33) * 0x1_0000_0000_0000_0000_0000_0000
  {
    HalvesOf(p00); HalvesOf(p01); HalvesOf(p02); HalvesOf(p03); HalvesOf(p11);
    HalvesOf(p12); HalvesOf(p13); HalvesOf(p22); HalvesOf(p23); HalvesOf(p33);
    // initial row
    var fourth32: U64 := Lo(p03);
    var third32: U64 := Lo(p02) + Hi(p03);
    var second32: U64 := Lo(p01) + Hi(p02);
    var first32: U64 := Lo(p00) + Hi(p01);
    // second row
    third32 := third32 + Lo(p13);
    second32 := second32 + Lo(p12) + Hi(p13);
    first32 := first32 + Lo(p11) + Hi(p12);
    // third row
    second32 := second32 + Lo(p23);
    first32 := first32 + Lo(p22) + Hi(p23);
    // fourth row
    first32 := first32 + Lo(p33);
    c := Columns(first32, second32, third32, fourth32);
    k := Hi(p00) + Hi(p11) + Hi(p22) + Hi(p33);
  }

  /** The source's `*`: the low 128 bits of the product. */
  method Mul(a: U128, b: U128) returns (r: U128)
    ensures V(r) == V(a) * V(b) % MODULUS
  {
    var top, bottom := Split(a), Split(b);
    var p := FillProducts(top, bottom);
    ghost var t, u := top, bottom;
    assert p[0, 0] == t[3] * u[0] && p[0, 1] == t[3] * u[1] && p[0, 2] == t[3] * u[2] && p[0, 3] == t[3] * u[3] by {
      assert 3 - 3 == 0;
    }
    assert p[1, 1] == t[2] * u[1] && p[1, 2] == t[2] * u[2] && p[1, 3] == t[2] * u[3] by { assert 3 - 2 == 1; }
    assert p[2, 2] == t[1] * u[2] && p[2, 3] == t[1] * u[3] by { assert 3 - 1 == 2; }
    assert p[3, 3] == t[0] * u[3] by { assert 3 - 0 == 3; }
    var c;
    ghost var k, m;
    c, k := AddRows(p[0, 0], p[0, 1], p[0, 2], p[0, 3], p[1, 1], p[1, 2], p[1, 3], p[2, 2], p[2, 3], p[3, 3]);
    r, m := Combine(c);
    ghost var e := ProductLow(t, u);
    ModUnique(V(a) * V(b), k + m + e, V(r), MODULUS);
  }

  lemma ProductLow(t: seq<nat>, u: seq<nat>) returns (e: nat)
    requires |t| == 4 && |u| == 4
    ensures Join(t) * Join(u) == e * MODULUS +
      t[3] * u[3] + (t[3] * u[2] + t[2] * u[3]) * 0x1_0000_0000
      + (t[3] * u[1] + t[2] * u[2] + t[1] * u[3]) * 0x1_0000_0000_0000_0000
      + (t[3] * u[0] + t[2] * u[1] + t[1] * u[2] + t[0] * u[3]) * 0x1_0000_0000_0000_0000_0000_0000
  {
    ProductExpands(t[0], t[1], t[2], t[3], u[0], u[1], u[2], u[3]);
    e := t[2] * u[0] + t[1] * u[1] + t[0] * u[2] + (t[1] * u[0] + t[0] * u[1]) * 0x1_0000_0000 +
        t[0] * u[0] * 0x1_0000_0000_0000_0000;
  }

  // ---------- bitwise or of numbers that share no bit ----------

  lemma {:induction false} OrBelow(a: int, b: int, n: nat)
    ensures 0 <= Or(a, b, n) < Pow2(n)
    decreases n
  {
    if n > 0 { OrBelow(a / 2, b / 2, n - 1); }
  }

  function OrLimb(x: U64, y: U64): U64 {
    OrBelow(x, y, 64);
    SixtyFour();
    Or(x, y, 64)
  }

  function BitOr(a: U128, b: U128): U128 {
    U128(OrLimb(a.upper, b.upper), OrLimb(a.lower, b.lower))
  }

  /** x is a multiple of 2^(k + 1), so it has no bit in common with 2^k. */
  lemma OrBit(x: U64, h: nat, k: nat)
    requires k < 64 && x == h * Pow2(k + 1)
    ensures Or(x, Pow2(k), 64) == x + Pow2(k)
  {
    SixtyFour();
    OrDisjoint(h, x, Pow2(k), k + 1, 64);
  }

  lemma OrNothing(x: U64)
    ensures Or(x, 0, 64) == x
  {
    SixtyFour();
    OrZero(x, 64);
  }

  lemma LowLimbMultiple(u: nat, l: U64, h: nat, p: nat, q: nat) returns (g: nat)
    requires p > 0 && q > 0 && p * q == B && u * B + l == h * p
    ensures l == g * p
  {
    var w := h - u * q;
    assert l == w * p by { assert u * (q * p) == u * q * p; }
    MultipleBounds(w, p);
    g := w;
  }

  lemma HighLimbMultiple(u: U64, l: U64, h: nat, p: nat)
    requires p > 0 && u * B + l == h * (p * B)
    ensures l == 0 && u == h * p
  {
    assert u * B + l == h * p * B;
    ModUnique(u * B + l, u, l, B);
    ModUnique(h * p * B, h * p, 0, B);
  }

  lemma PowerBelowLimb(k: nat)
    requires k < 64
    ensures Pow2(k) < B
  {
    SixtyFour();
    Pow2Mono(k, 63);
    assert Pow2(64) == 2 * Pow2(63);
  }

  lemma LimbsOfPower(a: U128, k: nat)
    requires V(a) == Pow2(k)
    ensures k < 128
    ensures k < 64 ==> a.upper == 0 && a.lower == Pow2(k)
    ensures k >= 64 ==> a.upper == Pow2(k - 64) && a.lower == 0
  {
    Modulus128();
    Pow2Less(k, 128);
    SixtyFour();
    Value(a);
    if k < 64 {
      PowerBelowLimb(k);
      Value(U128(0, Pow2(k)));
      ValueUnique(a, U128(0, Pow2(k)));
    } else {
      Pow2Add(k - 64, 64);
      PowerBelowLimb(k - 64);
      Value(U128(Pow2(k - 64), 0));
      ValueUnique(a, U128(Pow2(k - 64), 0));
    }
  }

  lemma BitOrLow(q: U128, k: nat, h: nat)
    requires k < 64 && V(q) == h * Pow2(k + 1)
    ensures Pow2(k) < B && V(BitOr(q, U128(0, Pow2(k)))) == V(q) + Pow2(k)
  {
    PowerBelowLimb(k);
    Value(q);
    Value(BitOr(q, U128(0, Pow2(k))));
    SplitPower(k + 1);
    var g := LowLimbMultiple(q.upper, q.lower, h, Pow2(k + 1), Pow2(63 - k));
    OrBit(q.lower, g, k);
    OrNothing(q.upper);
  }

  lemma BitOrHigh(q: U128, k: nat, h: nat)
    requires k < 64 && V(q) == h * (Pow2(k + 1) * B)
    ensures Pow2(k) < B && V(BitOr(q, U128(Pow2(k), 0))) == V(q) + Pow2(k) * B
  {
    PowerBelowLimb(k);
    Value(q);
    Value(BitOr(q, U128(Pow2(k), 0)));
    HighLimbMultiple(q.upper, q.lower, h, Pow2(k + 1));
    OrBit(q.upper, h, k);
    OrNothing(0);
  }

  /** Or-ing in a power of two below everything in q adds it. */
  lemma BitOrPower(q: U128, a: U128, k: nat, h: nat)
    requires V(a) == Pow2(k) && V(q) == h * Pow2(k + 1)
    ensures V(BitOr(q, a)) == V(q) + V(a)
  {
    LimbsOfPower(a, k);
    if k < 64 {
      assert a == U128(0, a.lower);
      BitOrLow(q, k, h);
    } else {
      assert a == U128(a.upper, 0);
      assert Pow2(k + 1) == Pow2(k - 63) * B && Pow2(k) == Pow2(k - 64) * B by {
        SixtyFour();
        Pow2Add(k - 63, 64);
        Pow2Add(k - 64, 64);
      }
      BitOrHigh(q, k - 64, h);
    }
  }

  // ---------- division ----------

  method Halve(u: U128) returns (r: U128)
    ensures V(r) == V(u) / 2
  {
    ZeroValue(ONE);
    ShrValue(u, ONE, 1);
    assert Pow2(1) == 2;
    r := Shr(u, ONE);
  }

  method Minus(a: U128, b: U128) returns (r: U128)
    requires V(a) >= V(b)
    ensures V(r) == V(a) - V(b)
  {
    SubValue(a, b);
    ModUnique(V(a) - V(b), 0, V(a) - V(b), MODULUS);
    r := Sub(a, b);
  }

  lemma AlignAlgebra(n: int, d: int, d0: int, p: int, limit: int)
    requires 0 < d0 <= d < 2 * d0 && p > 0 && n < 2 * d0 * p <= limit
    ensures n < 2 * (d * p) && d * p < limit && p < limit
  {
    MulMono(d0, d, p);
    MulMono(d + 1, 2 * d0, p);
    MulMono(2, 2 * d0, p);
    assert 2 * d0 * p == 2 * (d0 * p) && (d + 1) * p == d * p + p;
  }

  /** The divisor moved up to the length of the dividend. */
  lemma AlignedDivisor(n: nat, d: nat, diff: nat)
    requires 0 < d <= n < MODULUS && BitLength(n) - BitLength(d) == diff
    ensures n < 2 * (d * Pow2(diff)) && d * Pow2(diff) < MODULUS && Pow2(diff) < MODULUS && diff < 128
  {
    BitLengthBounds(n);
    BitLengthBounds(d);
    Modulus128();
    BitLengthAtMost(n, 128);
    var d0 := Pow2(BitLength(d) - 1);
    assert 2 * d0 * Pow2(diff) == Pow2(BitLength(n)) by { Pow2Add(BitLength(d), diff); }
    Pow2Mono(BitLength(n), 128);
    AlignAlgebra(n, d, d0, Pow2(diff), MODULUS);
  }

  lemma LengthMonotone(m: nat, n: nat)
    requires m <= n
    ensures BitLength(m) <= BitLength(n)
  {
    if m > 0 {
      BitLengthBounds(m);
      BitLengthBounds(n);
      Pow2Less(BitLength(m) - 1, BitLength(n));
    }
  }

  /** n divided by d is q, remainder r. */
  ghost predicate Divided(n: nat, d: nat, q: nat, r: nat) {
    r < d && n == Times(q, d) + r
  }

  /** Where the loop of `divmod` stands: what has been divided, what is left, and the aligned divisor. */
  ghost predicate Dividing(n: nat, d: nat, q: nat, r: nat, c: nat, a: nat, k: nat, h: nat) {
    n == Times(q, d) + r &&
    if a == 0 then r < d else r < 2 * c && a == Pow2(k) && c == Times(d, a) && q == Times(h, Pow2(k + 1))
  }

  /** Between taking and moving down: what is left is below the aligned divisor. */
  ghost predicate Lowered(n: nat, d: nat, q: nat, r: nat, c: nat, a: nat, k: nat, g: nat) {
    r < c && n == Times(q, d) + r && a == Pow2(k) && c == Times(d, a) && q == Times(g, Pow2(k))
  }

  /** Quotient and remainder are those of the numbers. */
  lemma DividedMeans(n: nat, d: nat, q: nat, r: nat)
    requires Divided(n, d, q, r)
    ensures n == q * d + r && q == n / d && r == n % d
  {
    TimesIsProduct(q, d);
    ModUnique(n, q, r, d);
  }

  lemma DividedTrivially(n: nat, d: nat)
    ensures n < d ==> Divided(n, d, 0, n)
    ensures n == d > 0 ==> Divided(n, d, 1, 0)
    ensures d == 1 ==> Divided(n, d, n, 0)
  {
    TimesIsProduct(0, d);
    TimesIsProduct(1, d);
    TimesIsProduct(n, 1);
  }

  lemma TakeAlgebra(q: nat, d: nat, a: nat, h: nat, p: nat)
    requires q == h * (2 * p) && a == p
    ensures (q + a) * d == q * d + d * a && q + a == (2 * h + 1) * p && q == 2 * h * p
  {
  }

  /** Taking the aligned divisor off once. */
  lemma TakeOnce(n: nat, d: nat, q: nat, r: nat, c: nat, a: nat, k: nat, h: nat)
    requires Dividing(n, d, q, r, c, a, k, h) && a > 0 && r >= c
    ensures Lowered(n, d, q + a, r - c, c, a, k, 2 * h + 1) && q == h * Pow2(k + 1)
  {
    TimesIsProduct(q, d);
    TimesIsProduct(d, a);
    TimesIsProduct(q + a, d);
    TimesIsProduct(h, Pow2(k + 1));
    TimesIsProduct(2 * h + 1, Pow2(k));
    TakeAlgebra(q, d, a, h, Pow2(k));
  }

  lemma LeaveOnce(n: nat, d: nat, q: nat, r: nat, c: nat, a: nat, k: nat, h: nat)
    requires Dividing(n, d, q, r, c, a, k, h) && a > 0 && r < c
    ensures Lowered(n, d, q, r, c, a, k, 2 * h)
  {
    TimesIsProduct(h, Pow2(k + 1));
    TimesIsProduct(2 * h, Pow2(k));
    TakeAlgebra(q, d, a, h, Pow2(k));
  }

  lemma HalfProduct(d: nat, a: nat, p: nat)
    requires a == 2 * p
    ensures Times(d, a) == 2 * Times(d, p)
  {
    TimesIsProduct(d, a);
    TimesIsProduct(d, p);
  }

  /** Moving the aligned divisor down one place. */
  lemma MoveDown(n: nat, d: nat, q: nat, r: nat, c: nat, a: nat, k: nat, g: nat)
    requires Lowered(n, d, q, r, c, a, k, g)
    ensures Dividing(n, d, q, r, c / 2, a / 2, if k == 0 then 0 else k - 1, g)
  {
    if k > 0 {
      HalfProduct(d, a, Pow2(k - 1));
    } else {
      TimesIsProduct(d, 1);
    }
  }

  /** One round of the loop of `divmod`. */
  method DivideRound(ghost n: nat, ghost d: nat, q: U128, r: U128, copyd: U128, adder: U128, ghost k: nat, ghost h: nat)
      returns (q': U128, r': U128, copyd': U128, adder': U128, ghost k': nat, ghost h': nat)
    requires Dividing(n, d, V(q), V(r), V(copyd), V(adder), k, h) && V(adder) > 0
    ensures Dividing(n, d, V(q'), V(r'), V(copyd'), V(adder'), k', h') && V(adder') < V(adder)
  {
    OrderIsValueOrder(r, copyd);
    if AtLeast(r, copyd) {
      q', r' := TakeDivisor(n, d, q, r, copyd, adder, k, h);
      h' := 2 * h + 1;
    } else {
      LeaveOnce(n, d, V(q), V(r), V(copyd), V(adder), k, h);
      q', r', h' := q, r, 2 * h;
    }
    MoveDown(n, d, V(q'), V(r'), V(copyd), V(adder), k, h');
    copyd' := Halve(copyd);
    adder' := Halve(adder);
    k' := if k == 0 then 0 else k - 1;
  }

  method TakeDivisor(ghost n: nat, ghost d: nat, q: U128, r: U128, copyd: U128, adder: U128, ghost k: nat, ghost h: nat)
      returns (q': U128, r': U128)
    requires Dividing(n, d, V(q), V(r), V(copyd), V(adder), k, h) && V(adder) > 0 && V(r) >= V(copyd)
    ensures Lowered(n, d, V(q'), V(r'), V(copyd), V(adder), k, 2 * h + 1)
  {
    TakeOnce(n, d, V(q), V(r), V(copyd), V(adder), k, h);
    r' := Minus(r, copyd);
    q' := AddBit(q, adder, k, h);
  }

  method AddBit(q: U128, adder: U128, ghost k: nat, ghost h: nat) returns (r: U128)
    requires V(adder) == Pow2(k) && V(q) == h * Pow2(k + 1)
    ensures V(r) == V(q) + V(adder)
  {
    BitOrPower(q, adder, k, h);
    r := BitOr(q, adder);
  }

  lemma ShlExact(u: U128, s: nat, v: nat, p: nat)
    requires s < 128 && v == V(u) && p == Pow2(s) && v * p < MODULUS
    ensures V(Shl(u, U128(0, s))) == Times(v, p)
  {
    Value(U128(0, s));
    ShlValue(u, U128(0, s), s);
    TimesIsProduct(v, p);
    MulMono(0, v, p);
    ModUnique(v * p, 0, v * p, MODULUS);
  }

  /** The aligned divisor and the matching bit of the quotient. */
  method AlignDivisor(lhs: U128, rhs: U128, diff: nat) returns (copyd: U128, adder: U128)
    requires 0 < V(rhs) <= V(lhs) && diff == BitLength(V(lhs)) - BitLength(V(rhs))
    ensures V(adder) == Pow2(diff) && V(copyd) == Times(V(rhs), Pow2(diff)) && V(lhs) < 2 * V(copyd)
  {
    AlignedDivisor(V(lhs), V(rhs), diff);
    TimesIsProduct(V(rhs), Pow2(diff));
    TimesIsProduct(1, Pow2(diff));
    ShlExact(rhs, diff, V(rhs), Pow2(diff));
    ZeroValue(ONE);
    ShlExact(ONE, diff, 1, Pow2(diff));
    copyd, adder := Shl(rhs, U128(0, diff)), Shl(ONE, U128(0, diff));
  }

  lemma FirstRound(n: nat, d: nat, c: nat, a: nat, k: nat)
    requires c == Times(d, a) && a == Pow2(k) && n < 2 * c
    ensures Dividing(n, d, 0, n, c, a, k, 0)
    ensures n < c ==> Lowered(n, d, 0, n, c, a, k, 0)
  {
    TimesIsProduct(0, d);
    TimesIsProduct(0, Pow2(k + 1));
    TimesIsProduct(0, Pow2(k));
  }

  method StartDivision(lhs: U128, rhs: U128) returns (copyd: U128, adder: U128, ghost k: nat)
    requires 0 < V(rhs) <= V(lhs)
    ensures Dividing(V(lhs), V(rhs), 0, V(lhs), V(copyd), V(adder), k, 0)
  {
    var bl := Bits(lhs);
    var br := Bits(rhs);
    LengthMonotone(V(rhs), V(lhs));
    var diff: nat := bl - br;
    copyd, adder := AlignDivisor(lhs, rhs, diff);
    k := diff;
    FirstRound(V(lhs), V(rhs), V(copyd), V(adder), k);
    OrderIsValueOrder(lhs, copyd);
    if Less(lhs, copyd) {
      MoveDown(V(lhs), V(rhs), 0, V(lhs), V(copyd), V(adder), k, 0);
      copyd := Halve(copyd);
      adder := Halve(adder);
      k := if k == 0 then 0 else k - 1;
    }
  }

  method LongDivision(lhs: U128, rhs: U128) returns (q: U128, r: U128)
    requires 0 < V(rhs) <= V(lhs)
    ensures Divided(V(lhs), V(rhs), V(q), V(r))
  {
    var copyd, adder;
    ghost var k: nat, h: nat;
    copyd, adder, k := StartDivision(lhs, rhs);
    ZeroValue(ZERO);
    q, r, h := ZERO, lhs, 0;
    while AtLeast(r, rhs)
      invariant Dividing(V(lhs), V(rhs), V(q), V(r), V(copyd), V(adder), k, h)
      decreases V(adder)
    {
      OrderIsValueOrder(r, rhs);
      q, r, copyd, adder, k, h := DivideRound(V(lhs), V(rhs), q, r, copyd, adder, k, h);
    }
    OrderIsValueOrder(r, rhs);
  }

  /** The source's `divmod`; None where it throws. */
  method DivMod(lhs: U128, rhs: U128) returns (qr: Option<(U128, U128)>)
    ensures qr == None <==> V(rhs) == 0
    ensures qr.Some? ==> Divided(V(lhs), V(rhs), V(qr.value.0), V(qr.value.1))
  {
    ZeroValue(rhs);
    ZeroValue(lhs);
    ZeroValue(ZERO);
    ZeroValue(ONE);
    if rhs == ZERO {
      return None;
    } else if rhs == ONE {
      DividedTrivially(V(lhs), 1);
      return Some((lhs, ZERO));
    } else if lhs == rhs {
      DividedTrivially(V(lhs), V(rhs));
      return Some((ONE, ZERO));
    } else if lhs == ZERO || Less(lhs, rhs) {
      OrderIsValueOrder(lhs, rhs);
      DividedTrivially(V(lhs), V(rhs));
      return Some((ZERO, lhs));
    }
    OrderIsValueOrder(lhs, rhs);
    var q, r := LongDivision(lhs, rhs);
    return Some((q, r));
  }

  /** The source's `%`: lhs - rhs * (lhs / rhs). */
  method Mod(lhs: U128, rhs: U128) returns (m: Option<U128>)
    ensures m == None <==> V(rhs) == 0
    ensures m.Some? ==> V(m.value) == V(lhs) % V(rhs)
  {
    var qr := DivMod(lhs, rhs);
    if qr == None {
      return None;
    }
    var product := Mul(rhs, qr.value.0);
    Remainder(V(lhs), V(rhs), V(qr.value.0), V(qr.value.1), V(product));
    var r := Minus(lhs, product);
    return Some(r);
  }

  lemma Remainder(n: nat, d: nat, q: nat, r: nat, p: nat)
    requires Divided(n, d, q, r) && n < MODULUS && p == d * q % MODULUS
    ensures p <= n && n - p == r == n % d
  {
    DividedMeans(n, d, q, r);
    MulMono(0, q, d);
    ModUnique(d * q, 0, d * q, MODULUS);
  }

  // ---------- printing ----------

  /** The source's `str`: the numeral, filled with zeros to the length asked for; None where it throws. */
  method Str(u: U128, base: nat, len: nat) returns (text: Option<string>)
    requires base < 256
    ensures text == None <==> base < 2 || base > 16
    ensures text.Some? ==> text.value == Padded(Numeral(V(u), base), len)
  {
    if base < 2 || base > 16 {
      return None;
    }
    var out := "0";
    NumeralCanonical(0, base);
    ZeroValue(u);
    if u != ZERO {
      out := StrDigits(u, base);
    }
    return Some(Padded(out, len));
  }

  function Padded(s: string, len: nat): string {
    if |s| < len then Zeros(len - |s|) + s else s
  }

  /** Padding keeps the value that is printed. */
  lemma StrReadsBack(u: U128, base: nat, len: nat)
    requires 2 <= base <= 16
    ensures ValueOf(Padded(Numeral(V(u), base), len), base) == V(u)
  {
    var s := Numeral(V(u), base);
    NumeralReadsBack(V(u), base);
    if |s| < len { LeadingZeros(len - |s|, s, base); }
  }

  /** The digits printed so far follow those of what is left. */
  ghost predicate Printing(n: nat, base: nat, q: nat, out: string)
    requires 2 <= base <= 16
  {
    Numeral(n, base) == if q == 0 then out else Numeral(q, base) + out
  }

  /** One round of the loop of `str`. */
  method PutDigit(ghost n: nat, base: nat, q: U128, out: string) returns (q': U128, out': string)
    requires 2 <= base <= 16 && Printing(n, base, V(q), out) && V(q) > 0
    ensures Printing(n, base, V(q'), out') && V(q') < V(q)
  {
    LowValue(U128(0, base));
    var qr := DivMod(q, U128(0, base));
    var r := qr.value.1;
    q' := qr.value.0;
    LowValue(r);
    PrintingStep(n, base, V(q), out, V(q'), V(r));
    out' := [Digit(r.lower)] + out;
  }

  lemma LowValue(u: U128)
    ensures u.upper == 0 <==> V(u) < B
    ensures u.upper == 0 ==> V(u) == u.lower
  {
    Value(u);
  }

  method StrDigits(u: U128, base: nat) returns (out: string)
    requires 2 <= base <= 16 && V(u) > 0
    ensures out == Numeral(V(u), base)
  {
    out := "";
    var q := u;
    PrintingStarts(V(u), base);
    while q != ZERO
      invariant Printing(V(u), base, V(q), out)
      decreases V(q)
    {
      ZeroValue(q);
      q, out := PutDigit(V(u), base, q, out);
    }
    ZeroValue(ZERO);
  }

  lemma PrintingStarts(n: nat, base: nat)
    requires 2 <= base <= 16 && n > 0
    ensures Printing(n, base, n, "")
  {
    assert Numeral(n, base) + "" == Numeral(n, base);
  }

  lemma PrintingStep(n: nat, base: nat, m: nat, out: string, q: nat, r: nat)
    requires 2 <= base <= 16 && Printing(n, base, m, out) && m > 0 && Divided(m, base, q, r)
    ensures r < base && q < m && Printing(n, base, q, [Digit(r)] + out)
  {
    DividedMeans(m, base, q, r);
    DigitSplits(m, base, q, r);
    if q > 0 {
      assert Numeral(q, base) + [Digit(r)] + out == Numeral(q, base) + ([Digit(r)] + out);
    }
  }

  lemma DigitSplits(n: nat, b: nat, q: nat, r: nat)
    requires 2 <= b <= 16 && n == q * b + r && r < b && n > 0
    ensures Numeral(n, b) == if q == 0 then [Digit(r)] else Numeral(q, b) + [Digit(r)]
    ensures q < n
  {
    if q > 0 {
      AppendDigit(q, r, b);
      MulMono(2, b, q);
    }
  }
}
