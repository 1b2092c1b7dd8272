/** The in-place exchange of two adjacent blocks of `argv` (lib/util/getopt_long.c):
    the greatest common divisor, the cycles of a rotation, and the loop that follows them. */
module BlockExchange {
  import opened Arithmetic
  import opened Sealing

  // ---------- greatest common divisor ----------

  ghost predicate Divides(d: int, n: int)
    requires d > 0
  {
    n % d == 0
  }

  /** g is the greatest common divisor of a and b: every common divisor divides it. */
  ghost predicate IsGcd(g: int, a: int, b: int) {
    g > 0 && Divides(g, a) && Divides(g, b) &&
    forall d :: d > 0 && Divides(d, a) && Divides(d, b) ==> Divides(d, g)
  }

  lemma DividesCombination(d: int, a: int, b: int, x: int, y: int)
    requires d > 0 && Divides(d, a) && Divides(d, b)
    ensures Divides(d, x * a + y * b)
  {
    var i, j := a / d, b / d;
    assert x * a + y * b == (x * i + y * j) * d by {
      assert a == i * d && b == j * d;
      assert x * (i * d) == (x * i) * d && y * (j * d) == (y * j) * d;
    }
    ModUnique(x * a + y * b, x * i + y * j, 0, d);
  }

  /** Euclid's step keeps the set of common divisors. */
  lemma CommonDivisors(d: int, a: int, b: int)
    requires d > 0 && b > 0
    ensures Divides(d, a) && Divides(d, b) <==> Divides(d, b) && Divides(d, a % b)
  {
    assert a == (a / b) * b + a % b;
    if Divides(d, a) && Divides(d, b) {
      DividesCombination(d, a, b, 1, -(a / b));
      assert 1 * a + -(a / b) * b == a % b;
    }
    if Divides(d, b) && Divides(d, a % b) {
      DividesCombination(d, b, a % b, a / b, 1);
      assert (a / b) * b + 1 * (a % b) == a;
    }
  }

  lemma GcdStep(g: int, a: int, b: int)
    requires b > 0 && a % b > 0
    ensures IsGcd(g, a, b) <==> IsGcd(g, b, a % b)
  {
    forall d | d > 0
      ensures Divides(d, a) && Divides(d, b) <==> Divides(d, b) && Divides(d, a % b)
    {
      CommonDivisors(d, a, b);
    }
  }

  lemma GcdBase(a: int, b: int)
    requires b > 0 && a % b == 0
    ensures IsGcd(b, a, b)
  {
    ModUnique(b, 1, 0, b);
  }

  lemma DivisorIsSmaller(d: int, n: int)
    requires d > 0 && n > 0 && Divides(d, n)
    ensures d <= n && n == n / d * d && n / d > 0
  {
    MultipleBounds(n / d, d);
  }

  lemma GcdUnique(g: int, h: int, a: int, b: int)
    requires IsGcd(g, a, b) && IsGcd(h, a, b)
    ensures g == h
  {
    DivisorIsSmaller(g, h);
    DivisorIsSmaller(h, g);
  }

  /** Bezout: the greatest common divisor is an integer combination of the two numbers. */
  lemma {:induction false} Bezout(a: int, b: int) returns (g: int, x: int, y: int)
    requires a >= 0 && b > 0
    ensures IsGcd(g, a, b) && g == x * a + y * b
    decreases b
  {
    if a % b == 0 {
      GcdBase(a, b);
      g, x, y := b, 0, 1;
    } else {
      var x', y';
      g, x', y' := Bezout(b, a % b);
      GcdStep(g, a, b);
      x, y := y', x' - y' * (a / b);
      var q := a / b;
      assert a % b == a - q * b;
      assert y' * (a - q * b) == y' * a - (y' * q) * b;
    }
  }

  /** The source's `gcd`: Euclid by repeated remainder. */
  method Gcd(a0: int, b0: int) returns (r: int)
    requires a0 >= 0 && b0 > 0
    ensures IsGcd(r, a0, b0)
  {
    var a, b := a0, b0;
    var c := a % b;
    while c != 0
      invariant a >= 0 && b > 0 && c == a % b
      invariant forall g :: IsGcd(g, a, b) <==> IsGcd(g, a0, b0)
      decreases c
    {
      forall g ensures IsGcd(g, a, b) <==> IsGcd(g, b, c) {
        GcdStep(g, a, b);
      }
      a, b := b, c;
      c := a % b;
    }
    GcdBase(a, b);
    return b;
  }

  // ---------- the cycles of a rotation by `shift` modulo `n` ----------

  /** One move of the loop: from an option slot down over the non-options, and back up over the options. */
  function Step(p: int, shift: int, n: int): int {
    if p >= shift then p - shift else p + (n - shift)
  }

  /** Where `Step` came from. */
  function Source(p: int, shift: int, n: int): int {
    if p + shift < n then p + shift else p + shift - n
  }

  function CyclePos(p0: int, shift: int, n: int, j: nat): int {
    if j == 0 then p0 else Step(CyclePos(p0, shift, n, j - 1), shift, n)
  }

  /** The arithmetic the cycle argument needs: g divides both lengths and x inverts the shift up to g. */
  ghost predicate Rotation(shift: int, n: int, g: int, x: int, k: int) {
    0 < shift < n && g > 0 && Divides(g, shift) && Divides(g, n) && x * shift == g + k * n
  }

  /** After j moves the position is p0 - j * shift, reduced modulo n. */
  lemma {:induction false} CyclePosMod(p0: int, shift: int, n: int, j: nat) returns (r: int)
    requires 0 < shift < n && 0 <= p0 < n
    ensures 0 <= CyclePos(p0, shift, n, j) < n
    ensures p0 - CyclePos(p0, shift, n, j) == j * shift + r * n
  {
    if j == 0 {
      r := 0;
    } else {
      r := CyclePosMod(p0, shift, n, j - 1);
      var was := CyclePos(p0, shift, n, j - 1);
      MoveMod(p0, was, j, shift, r, n);
      r := if was >= shift then r else r - 1;
    }
  }

  /** One more move. */
  lemma MoveMod(p0: int, was: int, j: int, shift: int, r: int, n: int)
    requires p0 - was == (j - 1) * shift + r * n
    ensures p0 - (was - shift) == j * shift + r * n && p0 - (was + (n - shift)) == j * shift + (r - 1) * n
  {
    assert (j - 1) * shift == j * shift - shift;
    assert (r - 1) * n == r * n - n;
  }

  /** The time at which the cycle from p0 reaches p. */
  ghost function CycleIndex(p0: int, p: int, n: int, g: int, x: int): int
    requires g > 0 && n / g > 0
  {
    ((p0 - p) / g * x) % (n / g)
  }

  lemma ReachAlgebra(j: int, t: int, x: int, k: int, q: int, shift: int, sg: int, n: int, len: int, g: int)
    requires j == t * x - q * len && x * shift == g + k * n && shift == sg * g && n == len * g
    ensures j * shift == t * g + (t * k - q * sg) * n
  {
    assert t * x * shift == t * (x * shift) == t * (g + k * n);
    assert q * len * shift == q * len * (sg * g) == q * sg * (len * g);
  }

  lemma CongruentBelow(p: int, c: int, m: int, r: int, n: int)
    requires 0 <= p < n && 0 <= c < n && p - c == m * n + r * n
    ensures p == c
  {
    assert (m + r) * n == m * n + r * n;
    MultipleBounds(m + r, n);
  }

  lemma CycleReachesAt(p0: int, p: int, shift: int, n: int, g: int, x: int, k: int, t: int, len: int, sg: int)
    requires 0 < shift < n && 0 <= p0 < n && 0 <= p < n && len > 0
    requires x * shift == g + k * n && p0 - p == t * g && n == len * g && shift == sg * g
    ensures 0 <= (t * x) % len < len && CyclePos(p0, shift, n, (t * x) % len) == p
  {
    var tx := t * x;
    var j, q := tx % len, tx / len;
    var r := CyclePosMod(p0, shift, n, j);
    assert j == tx - q * len;
    ReachAlgebra(j, t, x, k, q, shift, sg, n, len, g);
    CongruentBelow(p, CyclePos(p0, shift, n, j), t * k - q * sg, r, n);
  }

  lemma CycleReaches(p0: int, p: int, shift: int, n: int, g: int, x: int, k: int)
    requires Rotation(shift, n, g, x, k) && 0 <= p0 < n && 0 <= p < n && (p0 - p) % g == 0
    ensures n / g > 0
    ensures 0 <= CycleIndex(p0, p, n, g, x) < n / g
    ensures CyclePos(p0, shift, n, CycleIndex(p0, p, n, g, x)) == p
  {
    DivisorIsSmaller(g, n);
    DivisorIsSmaller(g, shift);
    CycleReachesAt(p0, p, shift, n, g, x, k, (p0 - p) / g, n / g, shift / g);
  }

  lemma IndexAlgebra(j: int, x: int, k: int, r: int, shift: int, sg: int, n: int, len: int, g: int)
    requires g > 0 && x * shift == g + k * n && shift == sg * g && n == len * g
    ensures j * shift + r * n == (j * sg + r * len) * g
    ensures (j * sg + r * len) * x == (j * k + r * x) * len + j
  {
    assert g * (sg * x) == x * shift;
    assert g * (1 + k * len) == g + k * (len * g);
    MultipleBounds(sg * x - (1 + k * len), g);
    assert sg * x == 1 + k * len;
    assert (j * sg + r * len) * x == j * (sg * x) + r * len * x;
  }

  lemma CycleIndexOf(p0: int, j: nat, shift: int, n: int, g: int, x: int, k: int)
    requires Rotation(shift, n, g, x, k) && 0 <= p0 < n && n / g > 0 && j < n / g
    ensures (p0 - CyclePos(p0, shift, n, j)) % g == 0
    ensures CycleIndex(p0, CyclePos(p0, shift, n, j), n, g, x) == j
  {
    DivisorIsSmaller(g, n);
    DivisorIsSmaller(g, shift);
    var r := CyclePosMod(p0, shift, n, j);
    var len, sg, c := n / g, shift / g, CyclePos(p0, shift, n, j);
    IndexAlgebra(j, x, k, r, shift, sg, n, len, g);
    ModUnique(p0 - c, j * sg + r * len, 0, g);
    ModUnique((j * sg + r * len) * x, j * k + r * x, j, len);
  }

  lemma SharedDivisor(len: int, sg: int, g: int, shift: int, n: int)
    requires shift == sg * g && n == len * g
    ensures len * shift == sg * n
  {
    assert len * (sg * g) == sg * (len * g);
  }

  lemma CycleCloses(p0: int, shift: int, n: int, g: int, x: int, k: int)
    requires Rotation(shift, n, g, x, k) && 0 <= p0 < n
    ensures n / g > 0 && CyclePos(p0, shift, n, n / g) == p0
  {
    DivisorIsSmaller(g, n);
    DivisorIsSmaller(g, shift);
    var r := CyclePosMod(p0, shift, n, n / g);
    var len, sg := n / g, shift / g;
    SharedDivisor(len, sg, g, shift, n);
    CongruentBelow(p0, CyclePos(p0, shift, n, len), sg, r, n);
  }

  /** The i-th cycle lives in the residue class of i modulo g. */
  lemma ResidueClass(p: int, i: int, shift: int, g: int)
    requires 0 <= i < g && Divides(g, shift)
    ensures (shift + i - p) % g == 0 <==> p % g == i
  {
    var m := shift / g - p / g;
    assert shift + i - p == m * g + (i - p % g) by {
      assert shift == shift / g * g && p == p / g * g + p % g;
    }
    if p % g <= i {
      ModUnique(shift + i - p, m, i - p % g, g);
    } else {
      assert (m - 1) * g == m * g - g;
      ModUnique(shift + i - p, m - 1, i - p % g + g, g);
    }
  }

  // ---------- the slots the loop has visited ----------

  /** Slots reached by the first j moves from p0. */
  ghost function Visited(p0: int, shift: int, n: int, j: nat): set<int> {
    if j == 0 then {} else Visited(p0, shift, n, j - 1) + {CyclePos(p0, shift, n, j)}
  }

  /** Slots reached by the first i whole cycles, each of `len` moves. */
  ghost function CyclesVisited(shift: int, n: int, len: nat, i: nat): set<int> {
    if i == 0 then {} else CyclesVisited(shift, n, len, i - 1) + Visited(shift + i - 1, shift, n, len)
  }

  lemma {:induction false} VisitedIndex(p: int, i: int, j: nat, shift: int, n: int, g: int, x: int, k: int)
    requires Rotation(shift, n, g, x, k) && 0 <= i < g && shift + i < n && n / g > 0 && j < n / g
    requires p in Visited(shift + i, shift, n, j)
    ensures 0 <= p < n && p % g == i && 1 <= CycleIndex(shift + i, p, n, g, x) <= j
  {
    if p == CyclePos(shift + i, shift, n, j) {
      var _ := CyclePosMod(shift + i, shift, n, j);
      CycleIndexOf(shift + i, j, shift, n, g, x, k);
      ResidueClass(p, i, shift, g);
    } else {
      VisitedIndex(p, i, j - 1, shift, n, g, x, k);
    }
  }

  lemma {:induction false} VisitedHas(p0: int, shift: int, n: int, j: nat, m: nat)
    requires 1 <= m <= j
    ensures CyclePos(p0, shift, n, m) in Visited(p0, shift, n, j)
  {
    if m < j { VisitedHas(p0, shift, n, j - 1, m); }
  }

  /** One whole cycle is exactly one residue class. */
  lemma CycleIsClass(p: int, i: int, shift: int, n: int, g: int, x: int, k: int)
    requires Rotation(shift, n, g, x, k) && 0 <= i < g && shift + i < n && n / g > 0
    ensures p in Visited(shift + i, shift, n, n / g) <==> 0 <= p < n && p % g == i
  {
    var p0 := shift + i;
    CycleCloses(p0, shift, n, g, x, k);
    ResidueClass(p0, i, shift, g);
    assert (shift + i - p0) % g == 0 by { ModUnique(0, 0, 0, g); }
    if p in Visited(p0, shift, n, n / g) && p != p0 {
      VisitedIndex(p, i, n / g - 1, shift, n, g, x, k);
    }
    if 0 <= p < n && p % g == i {
      ResidueClass(p, i, shift, g);
      CycleReaches(p0, p, shift, n, g, x, k);
      var m := CycleIndex(p0, p, n, g, x);
      VisitedHas(p0, shift, n, n / g, if m == 0 then n / g else m);
    }
  }

  lemma {:induction false} CyclesAreClasses(p: int, i: int, shift: int, n: int, g: int, x: int, k: int)
    requires Rotation(shift, n, g, x, k) && 0 <= i <= g && shift + g <= n && n / g > 0
    ensures p in CyclesVisited(shift, n, n / g, i) <==> 0 <= p < n && p % g < i
  {
    if i > 0 {
      CyclesAreClasses(p, i - 1, shift, n, g, x, k);
      CycleIsClass(p, i - 1, shift, n, g, x, k);
    }
  }

  /** No slot is visited twice: the next move of cycle i reaches a slot no move has reached. */
  lemma NextIsNew(i: int, j: nat, shift: int, n: int, g: int, x: int, k: int)
    requires Rotation(shift, n, g, x, k) && 0 <= i < g && shift + g <= n && n / g > 0 && j + 1 < n / g
    ensures var p := CyclePos(shift + i, shift, n, j + 1);
            0 <= p < n && p != shift + i &&
            p !in CyclesVisited(shift, n, n / g, i) && p !in Visited(shift + i, shift, n, j)
  {
    var p0 := shift + i;
    var p := CyclePos(p0, shift, n, j + 1);
    var _ := CyclePosMod(p0, shift, n, j + 1);
    CycleIndexOf(p0, j + 1, shift, n, g, x, k);
    CycleIndexOf(p0, 0, shift, n, g, x, k);
    ResidueClass(p, i, shift, g);
    CyclesAreClasses(p, i, shift, n, g, x, k);
    if p in Visited(p0, shift, n, j) {
      VisitedIndex(p, i, j, shift, n, g, x, k);
    }
  }

  /** The start slot of cycle i is reached only by the move that closes it. */
  lemma StartIsLast(i: int, j: nat, shift: int, n: int, g: int, x: int, k: int)
    requires Rotation(shift, n, g, x, k) && 0 <= i < g && shift + g <= n && n / g > 0 && j < n / g
    ensures shift + i !in CyclesVisited(shift, n, n / g, i) && shift + i !in Visited(shift + i, shift, n, j)
  {
    var p0 := shift + i;
    ResidueClass(p0, i, shift, g);
    assert (shift + i - p0) % g == 0 by { ModUnique(0, 0, 0, g); }
    CyclesAreClasses(p0, i, shift, n, g, x, k);
    CycleIndexOf(p0, 0, shift, n, g, x, k);
    if p0 in Visited(p0, shift, n, j) {
      VisitedIndex(p0, i, j, shift, n, g, x, k);
    }
  }

  /** The j-th move of cycle i reaches a slot that no move before it has reached. */
  ghost predicate MoveIsNew(shift: int, n: int, len: nat, i: nat, j: nat)
    requires j > 0
  {
    var p := CyclePos(shift + i, shift, n, j);
    0 <= p < n && p != shift + i && p !in CyclesVisited(shift, n, len, i) &&
    p !in Visited(shift + i, shift, n, j - 1) && shift + i !in Visited(shift + i, shift, n, j)
  }

  /** Cycle i visits new slots only, and its start slot last. */
  ghost predicate CycleIsSimple(shift: int, n: int, len: nat, i: nat) {
    0 < shift && shift + i < n && len > 0 &&
    CyclePos(shift + i, shift, n, len) == shift + i &&
    shift + i !in CyclesVisited(shift, n, len, i) &&
    (forall j: nat | 1 <= j < len :: MoveIsNew(shift, n, len, i, j))
  }

  /** `count` cycles of `len` moves visit every slot exactly once. */
  ghost predicate CyclesPartition(shift: int, n: int, count: nat, len: nat) {
    (forall p :: 0 <= p < n <==> p in CyclesVisited(shift, n, len, count)) &&
    (forall i: nat | i < count :: CycleIsSimple(shift, n, len, i))
  }

  lemma CycleVisitsOnce(i: nat, shift: int, n: int, g: int, x: int, k: int)
    requires Rotation(shift, n, g, x, k) && i < g && shift + g <= n && n / g > 0
    ensures CycleIsSimple(shift, n, n / g, i)
  {
    CycleCloses(shift + i, shift, n, g, x, k);
    StartIsLast(i, 0, shift, n, g, x, k);
    forall j: nat | 1 <= j < n / g ensures MoveIsNew(shift, n, n / g, i, j) {
      NextIsNew(i, j - 1, shift, n, g, x, k);
      StartIsLast(i, j, shift, n, g, x, k);
    }
  }

  /** The gcd-many cycles of length n / gcd visit every slot exactly once. */
  lemma CyclesVisitOnce(nonopts: int, opts: int, g: int)
    requires nonopts > 0 && opts > 0 && IsGcd(g, nonopts, opts)
    ensures (nonopts + opts) / g > 0 && CyclesPartition(nonopts, nonopts + opts, g, (nonopts + opts) / g)
  {
    var n := nonopts + opts;
    var x, k := RotationOfBlocks(nonopts, opts, g);
    DivisorIsSmaller(g, n);
    forall p ensures 0 <= p < n <==> p in CyclesVisited(nonopts, n, n / g, g) {
      CyclesAreClasses(p, g, nonopts, n, g, x, k);
    }
    forall i: nat | i < g ensures CycleIsSimple(nonopts, n, n / g, i) {
      CycleVisitsOnce(i, nonopts, n, g, x, k);
    }
  }

  // ---------- the loop invariants, over the exchanged window ----------

  /** The slots in `done` hold their final contents, the others their original ones. */
  ghost predicate Moved<T>(w: seq<T>, o: seq<T>, done: set<int>, shift: int)
    requires 0 < shift < |o| && |w| == |o|
  {
    forall p :: 0 <= p < |o| ==> w[p] == if p in done then o[Source(p, shift, |o|)] else o[p]
  }

  /** The same in the middle of cycle i, after j moves, with the value in hand at the start slot. */
  ghost predicate InCycle<T>(w: seq<T>, o: seq<T>, i: nat, j: nat, shift: int, len: nat)
    requires 0 < shift && shift + i < |o| && |w| == |o|
  {
    var p0, pj := shift + i, CyclePos(shift + i, shift, |o|, j);
    0 <= pj < |o| &&
    forall k :: Seal(Cycles, k) ==>
      w[p0] == o[pj] && Moved(w[p0 := o[p0]], o, CyclesVisited(shift, |o|, len, i) + Visited(p0, shift, |o|, j), shift)
  }

  lemma CycleStarts<T>(w: seq<T>, o: seq<T>, i: nat, shift: int, len: nat)
    requires CycleIsSimple(shift, |o|, len, i) && |w| == |o|
    requires Moved(w, o, CyclesVisited(shift, |o|, len, i), shift)
    ensures InCycle(w, o, i, 0, shift, len)
  {
  }

  lemma CycleMoves<T>(w: seq<T>, o: seq<T>, i: nat, j: nat, shift: int, len: nat)
    requires CycleIsSimple(shift, |o|, len, i) && |w| == |o|
    requires j + 1 < len && InCycle(w, o, i, j, shift, len)
    ensures var p := CyclePos(shift + i, shift, |o|, j + 1);
            0 <= p < |o| && InCycle(w[p := w[shift + i]][shift + i := w[p]], o, i, j + 1, shift, len)
  {
    assert Seal(Cycles, 0);
    var p0, p := shift + i, CyclePos(shift + i, shift, |o|, j + 1);
    assert MoveIsNew(shift, |o|, len, i, j + 1);
    assert Source(p, shift, |o|) == CyclePos(p0, shift, |o|, j);
    var w1 := w[p := w[p0]][p0 := w[p]][p0 := o[p0]];
    assert w1 == w[p0 := o[p0]][p := w[p0]];
    assert Visited(p0, shift, |o|, j + 1) == Visited(p0, shift, |o|, j) + {p};
  }

  /** A move of the loop: the next slot and what the swap through the start slot leaves behind.
      The closing move swaps the start slot with itself. */
  lemma CycleAdvances<T>(w: seq<T>, w': seq<T>, o: seq<T>, i: nat, j: nat, shift: int, len: nat, p: int)
    requires CycleIsSimple(shift, |o|, len, i) && |w| == |o| && j < len
    requires InCycle(w, o, i, j, shift, len)
    requires p == Step(CyclePos(shift + i, shift, |o|, j), shift, |o|) && 0 <= p < |o|
    requires w' == w[p := w[shift + i]][shift + i := w[p]]
    ensures p == CyclePos(shift + i, shift, |o|, j + 1)
    ensures InCycle(w', o, i, if j + 1 < len then j + 1 else j, shift, len)
  {
    if j + 1 < len {
      CycleMoves(w, o, i, j, shift, len);
    } else {
      assert w' == w;
    }
  }

  lemma CycleEnds<T>(w: seq<T>, o: seq<T>, i: nat, shift: int, len: nat)
    requires CycleIsSimple(shift, |o|, len, i) && |w| == |o|
    requires InCycle(w, o, i, len - 1, shift, len)
    ensures Moved(w, o, CyclesVisited(shift, |o|, len, i + 1), shift)
  {
    assert Seal(Cycles, 0);
    var p0 := shift + i;
    assert Source(p0, shift, |o|) == CyclePos(p0, shift, |o|, len - 1);
    var done := CyclesVisited(shift, |o|, len, i) + Visited(p0, shift, |o|, len - 1);
    assert CyclesVisited(shift, |o|, len, i + 1) == done + {p0};
    assert forall p :: 0 <= p < |o| && p != p0 ==> w[p] == w[p0 := o[p0]][p];
  }

  /** What the exchange promises: the two blocks trade places, each keeping its own order. */
  function Exchanged<T>(s: seq<T>, start: int, middle: int, end: int): (r: seq<T>)
    requires 0 <= start <= middle <= end <= |s|
  {
    s[..start] + s[middle..end] + s[start..middle] + s[end..]
  }

  lemma AllCyclesDone<T>(w: seq<T>, o: seq<T>, shift: int, count: nat, len: nat)
    requires CyclesPartition(shift, |o|, count, len) && 0 < shift < |o| == |w|
    requires Moved(w, o, CyclesVisited(shift, |o|, len, count), shift)
    ensures w == o[shift..] + o[..shift]
  {
  }

  lemma RotationOfBlocks(nonopts: int, opts: int, g: int) returns (x: int, k: int)
    requires nonopts > 0 && opts > 0 && IsGcd(g, nonopts, opts)
    ensures Rotation(nonopts, nonopts + opts, g, x, k) && g <= nonopts && g <= opts
  {
    var h, u, v := Bezout(nonopts, opts);
    GcdUnique(g, h, nonopts, opts);
    DividesCombination(g, nonopts, opts, 1, 1);
    assert 1 * nonopts + 1 * opts == nonopts + opts;
    DivisorIsSmaller(g, nonopts);
    DivisorIsSmaller(g, opts);
    x, k := u - v, -v;
    assert (u - v) * nonopts == g + -v * (nonopts + opts);
  }

  /** One swap through the hand slot; the window and what lies outside it. */
  method SwapWithin<T>(a: array<T>, start: int, end: int, pos: int, cstart: int)
    requires 0 <= start <= pos < end <= a.Length && start <= cstart < end
    modifies a
    ensures var w := old(a[start..end]);
            a[start..end] == w[pos - start := w[cstart - start]][cstart - start := w[pos - start]]
    ensures a[..start] == old(a[..start]) && a[end..] == old(a[end..])
  {
    var swap := a[pos];
    a[pos] := a[cstart];
    a[cstart] := swap;
  }

  /** One move: on to the next slot, which is swapped with the start slot of the cycle. */
  method MoveOne<T>(a: array<T>, start: int, middle: int, end: int, i: nat, ghost j: nat, ghost cyclelen: nat, pos: int,
                    ghost o: seq<T>)
    returns (next: int)
    requires 0 <= start < middle < end <= a.Length && |o| == end - start && j < cyclelen
    requires CycleIsSimple(middle - start, |o|, cyclelen, i)
    requires InCycle(a[start..end], o, i, j, middle - start, cyclelen)
    requires pos == start + CyclePos(middle - start + i, middle - start, |o|, j)
    modifies a
    ensures next == start + CyclePos(middle - start + i, middle - start, |o|, j + 1)
    ensures InCycle(a[start..end], o, i, if j + 1 < cyclelen then j + 1 else j, middle - start, cyclelen)
    ensures a[..start] == old(a[..start]) && a[end..] == old(a[end..])
  {
    var nonopts, opts := middle - start, end - middle;
    ghost var w := a[start..end];
    if pos >= middle {
      next := pos - nonopts;
    } else {
      next := pos + opts;
    }
    SwapWithin(a, start, end, next, middle + i);
    CycleAdvances(w, a[start..end], o, i, j, nonopts, cyclelen, next - start);
  }

  /** The inner loop of `permute_args`: one cycle, swapping through its start slot. */
  method FollowCycle<T>(a: array<T>, start: int, middle: int, end: int, i: nat, cyclelen: nat, ghost o: seq<T>)
    requires 0 <= start < middle < end <= a.Length && |o| == end - start
    requires CycleIsSimple(middle - start, |o|, cyclelen, i)
    requires Moved(a[start..end], o, CyclesVisited(middle - start, |o|, cyclelen, i), middle - start)
    modifies a
    ensures Moved(a[start..end], o, CyclesVisited(middle - start, |o|, cyclelen, i + 1), middle - start)
    ensures a[..start] == old(a[..start]) && a[end..] == old(a[end..])
  {
    ghost var nonopts := middle - start;
    var pos := middle + i;
    CycleStarts(a[start..end], o, i, nonopts, cyclelen);
    for j := 0 to cyclelen
      invariant pos == start + CyclePos(nonopts + i, nonopts, |o|, j)
      invariant InCycle(a[start..end], o, i, if j < cyclelen then j else j - 1, nonopts, cyclelen)
      invariant a[..start] == old(a[..start]) && a[end..] == old(a[end..])
    {
      pos := MoveOne(a, start, middle, end, i, j, cyclelen, pos, o);
    }
    CycleEnds(a[start..end], o, i, nonopts, cyclelen);
  }

  lemma WindowExchanged<T>(all: seq<T>, now: seq<T>, start: int, middle: int, end: int)
    requires 0 <= start < middle < end <= |all| == |now|
    requires now[..start] == all[..start] && now[end..] == all[end..]
    requires var o := all[start..end]; now[start..end] == o[middle - start..] + o[..middle - start]
    ensures now == Exchanged(all, start, middle, end)
  {
    assert now == now[..start] + now[start..end] + now[end..];
    assert all[start..end][middle - start..] == all[middle..end];
    assert all[start..end][..middle - start] == all[start..middle];
  }

  /** The source's `permute_args`: follow gcd-many cycles. */
  method PermuteArgs<T>(a: array<T>, start: int, middle: int, end: int)
    requires 0 <= start < middle < end <= a.Length
    modifies a
    ensures a[..] == Exchanged(old(a[..]), start, middle, end)
  {
    var nonopts, opts := middle - start, end - middle;
    var ncycle := Gcd(nonopts, opts);
    CyclesVisitOnce(nonopts, opts, ncycle);
    var cyclelen := (end - start) / ncycle;
    assert cyclelen > 0;
    ghost var o := a[start..end];
    for i := 0 to ncycle
      invariant Moved(a[start..end], o, CyclesVisited(nonopts, |o|, cyclelen, i), nonopts)
      invariant a[..start] == old(a[..start]) && a[end..] == old(a[end..])
    {
      FollowCycle(a, start, middle, end, i, cyclelen, o);
    }
    AllCyclesDone(a[start..end], o, nonopts, ncycle, cyclelen);
    WindowExchanged(old(a[..]), a[..], start, middle, end);
  }
}
