/** Polynomials over the two-element field as natural numbers: bit k is the coefficient of x^k, addition is
    exclusive or, and multiplication by x is doubling. */
module Gf2 {
  import opened Sealing
  import opened Arithmetic

  function Xor(a: nat, b: nat): nat
    decreases a
  {
    if a == 0 then b else if b == 0 then a else 2 * Xor(a / 2, b / 2) + (if a % 2 == b % 2 then 0 else 1)
  }

  // ---------- the addition group ----------

  lemma {:induction false} XorComm(a: nat, b: nat)
    ensures Xor(a, b) == Xor(b, a)
    decreases a
  {
    if a != 0 && b != 0 { XorComm(a / 2, b / 2); }
  }

  lemma XorZero(a: nat)
    ensures Xor(a, 0) == a && Xor(0, a) == a
  {
  }

  lemma Halve(x: int, p: int)
    requires 0 <= p < 2
    ensures (2 * x + p) / 2 == x && (2 * x + p) % 2 == p
  {
  }

  /** One binary digit at a time. */
  lemma XorDigit(a: nat, b: nat)
    ensures Xor(a, b) % 2 == (if a % 2 == b % 2 then 0 else 1) && Xor(a, b) / 2 == Xor(a / 2, b / 2)
  {
    if a == 0 || b == 0 {
      XorZero(a);
      XorZero(b);
      XorZero(a / 2);
      XorZero(b / 2);
    } else {
      Halve(Xor(a / 2, b / 2), if a % 2 == b % 2 then 0 else 1);
    }
  }

  /** A number is its half and its last digit. */
  lemma SameNumber(a: nat, b: nat)
    requires a % 2 == b % 2 && a / 2 == b / 2
    ensures a == b
  {
  }

  lemma {:induction false} XorAssoc(a: nat, b: nat, c: nat)
    ensures Xor(Xor(a, b), c) == Xor(a, Xor(b, c))
    decreases a + b + c
  {
    if a == 0 || b == 0 || c == 0 {
      XorZero(a);
      XorZero(b);
      XorZero(Xor(a, b));
    } else {
      XorAssoc(a / 2, b / 2, c / 2);
      XorDigit(a, b);
      XorDigit(b, c);
      XorDigit(Xor(a, b), c);
      XorDigit(a, Xor(b, c));
      SameNumber(Xor(Xor(a, b), c), Xor(a, Xor(b, c)));
    }
  }

  lemma {:induction false} XorSelf(a: nat)
    ensures Xor(a, a) == 0
  {
    if a != 0 { XorSelf(a / 2); }
  }

  lemma XorCancel(a: nat, b: nat)
    ensures Xor(a, Xor(a, b)) == b && Xor(Xor(b, a), a) == b
  {
    XorAssoc(a, a, b);
    XorSelf(a);
    XorAssoc(b, a, a);
    XorZero(b);
  }

  lemma XorIsZero(a: nat, b: nat)
    requires Xor(a, b) == 0
    ensures a == b
  {
    XorCancel(a, b);
    XorZero(a);
  }

  /** (a + b) + (c + d) = (a + c) + (b + d). */
  lemma XorSwap(a: nat, b: nat, c: nat, d: nat)
    ensures Xor(Xor(a, b), Xor(c, d)) == Xor(Xor(a, c), Xor(b, d))
  {
    XorAssoc(a, b, Xor(c, d));
    XorAssoc(b, c, d);
    XorComm(b, c);
    XorAssoc(c, b, d);
    XorAssoc(a, c, Xor(b, d));
  }

  lemma XorDouble(a: nat, b: nat)
    ensures Xor(2 * a, 2 * b) == 2 * Xor(a, b)
  {
    XorDigit(2 * a, 2 * b);
    Halve(a, 0);
    Halve(b, 0);
    Halve(Xor(a, b), 0);
    SameNumber(Xor(2 * a, 2 * b), 2 * Xor(a, b));
  }

  lemma XorFromHalves(u: nat, v: nat, r: nat)
    requires r % 2 == (if u % 2 == v % 2 then 0 else 1) && r / 2 == Xor(u / 2, v / 2)
    ensures Xor(u, v) == r
  {
    XorDigit(u, v);
    SameNumber(Xor(u, v), r);
  }

  lemma JoinHalves(h: nat, x: nat)
    ensures (2 * h + x) / 2 == h + x / 2 && (2 * h + x) % 2 == x % 2
  {
  }

  /** A sum, without the recursion behind it. */
  ghost predicate XorIs(u: nat, v: nat, r: nat) {
    forall s :: Seal(Digits, s) ==> Xor(u, v) == r
  }

  predicate LastDigit(u: nat, v: nat, r: nat) {
    r % 2 == if u % 2 == v % 2 then 0 else 1
  }

  lemma XorHalf(x: nat, y: nat, z: nat)
    requires XorIs(x, y, z)
    ensures XorIs(x / 2, y / 2, z / 2) && LastDigit(x, y, z)
  {
    assert Seal(Digits, 0);
    XorDigit(x, y);
  }

  lemma XorWhole(u: nat, v: nat, r: nat)
    requires XorIs(u / 2, v / 2, r / 2) && LastDigit(u, v, r)
    ensures XorIs(u, v, r)
  {
    assert Seal(Digits, 0);
    XorFromHalves(u, v, r);
  }

  lemma XorJoinStep(a: nat, x: nat, b: nat, y: nat, c: nat, z: nat)
    requires XorIs(a + x / 2, b + y / 2, c + z / 2) && LastDigit(x, y, z)
    ensures XorIs(2 * a + x, 2 * b + y, 2 * c + z)
  {
    JoinHalves(a, x);
    JoinHalves(b, y);
    JoinHalves(c, z);
    XorWhole(2 * a + x, 2 * b + y, 2 * c + z);
  }

  lemma HalfBelow(x: int, p: int)
    requires x < 2 * p
    ensures x / 2 < p
  {
  }

  lemma {:induction false} XorRaised(a: nat, x: nat, b: nat, y: nat, c: nat, z: nat, k: nat)
    requires x < Pow2(k) && y < Pow2(k) && XorIs(a, b, c) && XorIs(x, y, z)
    ensures XorIs(Raise(a, k) + x, Raise(b, k) + y, Raise(c, k) + z)
    decreases k
  {
    if k == 0 {
      assert z == 0 by {
        assert Seal(Digits, 0);
        XorZero(0);
      }
    } else {
      HalfBelow(x, Pow2(k - 1));
      HalfBelow(y, Pow2(k - 1));
      XorHalf(x, y, z);
      XorRaised(a, x / 2, b, y / 2, c, z / 2, k - 1);
      XorJoinStep(Raise(a, k - 1), x, Raise(b, k - 1), y, Raise(c, k - 1), z);
    }
  }

  lemma XorRaise(a: nat, x: nat, b: nat, y: nat, k: nat)
    requires x < Pow2(k) && y < Pow2(k)
    ensures Xor(Raise(a, k) + x, Raise(b, k) + y) == Raise(Xor(a, b), k) + Xor(x, y)
  {
    XorRaised(a, x, b, y, Xor(a, b), Xor(x, y), k);
    assert Seal(Digits, 0);
  }

  /** The high and the low coefficients add separately. */
  lemma XorJoin(a: nat, x: nat, b: nat, y: nat, k: nat)
    requires x < Pow2(k) && y < Pow2(k)
    ensures Xor(a * Pow2(k) + x, b * Pow2(k) + y) == Xor(a, b) * Pow2(k) + Xor(x, y)
  {
    XorRaise(a, x, b, y, k);
    RaiseIsProduct(a, k);
    RaiseIsProduct(b, k);
    RaiseIsProduct(Xor(a, b), k);
  }

  lemma XorScale(a: nat, b: nat, k: nat)
    ensures Xor(a * Pow2(k), b * Pow2(k)) == Xor(a, b) * Pow2(k)
  {
    XorJoin(a, 0, b, 0, k);
    XorZero(0);
  }

  /** Numbers that share no bit add without carry. */
  lemma XorDisjoint(a: nat, b: nat, k: nat)
    requires b < Pow2(k)
    ensures Xor(a * Pow2(k), b) == a * Pow2(k) + b
  {
    XorRaise(a, 0, 0, b, k);
    XorZero(a);
    XorZero(b);
    RaiseZero(k);
    RaiseIsProduct(a, k);
  }

  lemma {:induction false} RaiseZero(k: nat)
    ensures Raise(0, k) == 0
  {
    if k > 0 { RaiseZero(k - 1); }
  }

  lemma {:induction false} XorBelow(a: nat, b: nat, k: nat)
    requires a < Pow2(k) && b < Pow2(k)
    ensures Xor(a, b) < Pow2(k)
    decreases k
  {
    if k > 0 {
      XorBelow(a / 2, b / 2, k - 1);
      XorDigit(a, b);
    }
  }

  /** Adding a polynomial of lower degree keeps the degree. */
  lemma {:induction false} XorAbove(a: nat, b: nat, k: nat)
    requires a >= Pow2(k) > b
    ensures Xor(a, b) >= Pow2(k)
    decreases k
  {
    if k == 0 {
      XorZero(a);
    } else {
      XorAbove(a / 2, b / 2, k - 1);
      XorDigit(a, b);
    }
  }

  // ---------- number of coefficients, modulo two ----------

  /** Whether an odd number of coefficients is set. */
  predicate Odd(a: nat) {
    a != 0 && ((a % 2 == 1) != Odd(a / 2))
  }

  lemma OddDigit(a: nat)
    ensures Odd(a) == ((a % 2 == 1) != Odd(a / 2))
  {
  }

  lemma {:induction false} OddXor(a: nat, b: nat)
    ensures Odd(Xor(a, b)) == (Odd(a) != Odd(b))
    decreases a
  {
    if a == 0 || b == 0 {
      XorZero(a);
      XorZero(b);
    } else {
      OddXor(a / 2, b / 2);
      XorDigit(a, b);
      OddDigit(Xor(a, b));
    }
  }

  lemma {:induction false} OddScale(a: nat, k: nat)
    ensures Odd(a * Pow2(k)) == Odd(a)
  {
    if k > 0 {
      OddScale(a, k - 1);
      PowDouble(a, k);
      Halve(a * Pow2(k - 1), 0);
    }
  }
}
