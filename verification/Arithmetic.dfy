/** Division, remainder and powers of two, as the models use them. */
module Arithmetic {

  lemma MultipleBounds(k: int, n: int)
    requires n > 0
    ensures k >= 1 ==> k * n >= n
    ensures k <= -1 ==> k * n <= -n
  {
    assert k * n == (k - 1) * n + n == (k + 1) * n - n;
  }

  lemma MulMono(a: int, b: int, c: int)
    requires a <= b && c >= 0
    ensures a * c <= b * c
  {
  }

  /** Quotient and remainder are determined by the division equation. */
  lemma ModUnique(a: int, q: int, r: int, n: int)
    requires n > 0 && a == q * n + r && 0 <= r < n
    ensures a / n == q && a % n == r
  {
    var k := a / n - q;
    assert k * n == (a / n) * n - q * n;
    assert a == (a / n) * n + a % n;
    MultipleBounds(k, n);
  }

  lemma DivDiv(x: int, a: int, b: int)
    requires a > 0 && b > 0
    ensures a * b > 0 && x / (a * b) == x / b / a
  {
    var q, r := x / b / a, x / b % a;
    assert x == (q * a + r) * b + x % b;
    assert x == q * (a * b) + (r * b + x % b);
    MulMono(r, a - 1, b);
    MulMono(0, r, b);
    assert (a - 1) * b == a * b - b;
    ModUnique(x, q, r * b + x % b, a * b);
  }

  lemma DivShift(y: int, m: int, a: int)
    requires a > 0
    ensures (y - m * a) / a == y / a - m && (y - m * a) % a == y % a
  {
    assert y - m * a == (y / a - m) * a + y % a;
    ModUnique(y - m * a, y / a - m, y % a, a);
  }

  lemma ModMod(y: int, a: int, m: int)
    requires a > 0 && m > 0
    ensures a * m > 0 && y % (a * m) % a == y % a
  {
    var q := y / (a * m);
    assert y % (a * m) == y - (q * m) * a;
    DivShift(y, q * m, a);
  }

  lemma ModProduct(h: int, t: int, m: int, p: int)
    requires m > 0 && p > 0 && 0 <= t < p
    ensures m * p > 0 && (h * p + t) % (m * p) == h % m * p + t
  {
    var q, r := h / m, h % m;
    assert h * p + t == q * (m * p) + (r * p + t) by { assert h == q * m + r; }
    MulMono(r, m - 1, p);
    MulMono(0, r, p);
    assert (m - 1) * p == m * p - p;
    ModUnique(h * p + t, q, r * p + t, m * p);
  }

  lemma QuotientBelow(y: int, a: int, b: int)
    requires a > 0 && b > 0 && 0 <= y < a * b
    ensures 0 <= y / b < a && y / b % a == y / b
  {
    DivDiv(y, a, b);
    ModUnique(y, 0, y, a * b);
  }

  lemma MulCancel(a: int, b: int, p: int)
    requires p > 0 && a * p == b * p
    ensures a == b
  {
    assert (a - b) * p == 0;
    MultipleBounds(a - b, p);
  }

  // ---------- powers of two ----------

  function Pow2(k: nat): (p: nat)
    ensures p >= 1
  {
    if k == 0 then 1 else 2 * Pow2(k - 1)
  }

  lemma {:induction false} Pow2Add(i: nat, j: nat)
    ensures Pow2(i) * Pow2(j) == Pow2(i + j)
  {
    if i > 0 {
      Pow2Add(i - 1, j);
      assert 2 * Pow2(i - 1) * Pow2(j) == 2 * (Pow2(i - 1) * Pow2(j));
    }
  }

  lemma {:induction false} Pow2Mono(i: nat, j: nat)
    requires i <= j
    ensures Pow2(i) <= Pow2(j)
  {
    if i < j { Pow2Mono(i, j - 1); }
  }

  lemma Pow2Less(i: nat, j: nat)
    requires Pow2(i) < Pow2(j)
    ensures i < j
  {
    if j <= i { Pow2Mono(j, i); }
  }

  lemma Pow2Table()
    ensures Pow2(0) == 1 && Pow2(1) == 2 && Pow2(2) == 4 && Pow2(3) == 8
    ensures Pow2(4) == 16 && Pow2(5) == 32 && Pow2(6) == 64 && Pow2(7) == 128 && Pow2(8) == 256
  {
    assert Pow2(2) == 4;
    assert Pow2(4) == 16;
    assert Pow2(6) == 64;
  }

  lemma PowDouble(a: int, k: nat)
    requires k > 0
    ensures a * Pow2(k) == 2 * (a * Pow2(k - 1))
  {
  }

  /** a times 2^k, by repeated doubling. */
  function Raise(a: nat, k: nat): nat {
    if k == 0 then a else 2 * Raise(a, k - 1)
  }

  lemma {:induction false} RaiseIsProduct(a: nat, k: nat)
    ensures Raise(a, k) == a * Pow2(k)
  {
    if k > 0 {
      RaiseIsProduct(a, k - 1);
      PowDouble(a, k);
    }
  }

  /** Multiplication by repeated addition: a product that proofs can carry as one term. */
  function Times(a: nat, b: nat): nat {
    if b == 0 then 0 else Times(a, b - 1) + a
  }

  lemma {:induction false} TimesIsProduct(a: nat, b: nat)
    ensures Times(a, b) == a * b
  {
    if b > 0 {
      TimesIsProduct(a, b - 1);
      assert a * b == a * (b - 1) + a;
    }
  }

  // ---------- bit length ----------

  function BitLength(n: nat): nat {
    if n == 0 then 0 else 1 + BitLength(n / 2)
  }

  lemma {:induction false} BitLengthBounds(n: nat)
    requires n > 0
    ensures BitLength(n) >= 1 && Pow2(BitLength(n) - 1) <= n < Pow2(BitLength(n))
  {
    if n > 1 { BitLengthBounds(n / 2); }
  }
}
