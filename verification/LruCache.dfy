/** The cache of lib/util/lrucache.hpp: a list of nodes in order of use and a map from keys to nodes,
    against a plain list of entries, most recently used first. */
module LruCache {

  datatype Option<T> = None | Some(value: T)

  // ---------- the abstract cache ----------

  datatype Entry<K, V> = Entry(key: K, value: V)

  function Without<K(==), V>(s: seq<Entry<K, V>>, k: K): (r: seq<Entry<K, V>>)
    ensures |r| <= |s|
  {
    if s == [] then [] else (if s[0].key == k then [] else [s[0]]) + Without(s[1..], k)
  }

  function Lookup<K(==), V>(s: seq<Entry<K, V>>, k: K): Option<V> {
    if s == [] then None else if s[0].key == k then Some(s[0].value) else Lookup(s[1..], k)
  }

  function Take<T>(s: seq<T>, n: nat): seq<T> {
    if |s| <= n then s else s[..n]
  }

  function Put<K(==), V>(s: seq<Entry<K, V>>, k: K, v: V, capacity: nat): seq<Entry<K, V>> {
    Take([Entry(k, v)] + Without(s, k), capacity)
  }

  /** A hit moves the entry to the front; a miss changes nothing. */
  function Touch<K(==), V>(s: seq<Entry<K, V>>, k: K): seq<Entry<K, V>> {
    match Lookup(s, k)
    case Some(v) => [Entry(k, v)] + Without(s, k)
    case None => s
  }

  predicate Distinct<K(==), V>(s: seq<Entry<K, V>>) {
    forall i, j :: 0 <= i < j < |s| ==> s[i].key != s[j].key
  }

  predicate Has<K(==), V>(s: seq<Entry<K, V>>, k: K) {
    exists i :: 0 <= i < |s| && s[i].key == k
  }

  lemma {:induction false} LookupFinds<K, V>(s: seq<Entry<K, V>>, k: K)
    ensures Lookup(s, k).Some? <==> Has(s, k)
  {
    if s != [] {
      LookupFinds(s[1..], k);
      assert Has(s[1..], k) ==> Has(s, k) by {
        if i :| 0 <= i < |s[1..]| && s[1..][i].key == k { assert s[i + 1].key == k; }
      }
      if Has(s, k) && s[0].key != k {
        var i :| 0 <= i < |s| && s[i].key == k;
        assert s[1..][i - 1].key == k;
      }
    }
  }

  lemma {:induction false} LookupAt<K, V>(s: seq<Entry<K, V>>, i: nat)
    requires Distinct(s) && i < |s|
    ensures Lookup(s, s[i].key) == Some(s[i].value)
  {
    if i > 0 {
      assert s[i] == s[1..][i - 1];
      LookupAt(s[1..], i - 1);
    }
  }

  lemma {:induction false} WithoutHas<K, V>(s: seq<Entry<K, V>>, k: K, j: K)
    ensures Has(Without(s, k), j) <==> Has(s, j) && j != k
    ensures j != k ==> Lookup(Without(s, k), j) == Lookup(s, j)
  {
    LookupFinds(s, j);
    LookupFinds(Without(s, k), j);
    if s != [] {
      WithoutHas(s[1..], k, j);
      LookupFinds(s[1..], j);
      LookupFinds(Without(s[1..], k), j);
      if s[0].key != k {
        assert Without(s, k)[1..] == Without(s[1..], k);
      } else {
        assert Without(s, k) == Without(s[1..], k);
      }
    }
  }

  lemma {:induction false} WithoutDistinct<K, V>(s: seq<Entry<K, V>>, k: K)
    requires Distinct(s)
    ensures Distinct(Without(s, k)) && |Without(s, k)| == |s| - (if Has(s, k) then 1 else 0)
  {
    if s != [] {
      WithoutDistinct(s[1..], k);
      var r := Without(s[1..], k);
      LookupFinds(s, k);
      LookupFinds(s[1..], k);
      if s[0].key == k {
        assert !Has(s[1..], k);
      } else {
        forall j | 0 <= j < |r| ensures r[j].key != s[0].key {
          assert Has(r, r[j].key);
          WithoutHas(s[1..], k, r[j].key);
          assert Has(s[1..], r[j].key);
        }
      }
    }
  }

  /** Every abstract operation keeps the keys distinct and, but for `Touch` and removal, the size within the
      capacity. */
  lemma PutDistinct<K, V>(s: seq<Entry<K, V>>, k: K, v: V, capacity: nat)
    requires Distinct(s) && |s| <= capacity
    ensures Distinct(Put(s, k, v, capacity)) && |Put(s, k, v, capacity)| <= capacity
    ensures |[Entry(k, v)] + Without(s, k)| <= capacity + 1
  {
    FrontDistinct(s, k, v);
  }

  lemma FrontDistinct<K, V>(s: seq<Entry<K, V>>, k: K, v: V)
    requires Distinct(s)
    ensures Distinct([Entry(k, v)] + Without(s, k))
  {
    WithoutDistinct(s, k);
    var r := Without(s, k);
    forall j | 0 <= j < |r| ensures r[j].key != k {
      assert Has(r, r[j].key);
      WithoutHas(s, k, r[j].key);
    }
  }

  // ---------- runs of operations ----------

  datatype Op<K, V> = PutOp(key: K, value: V) | GetOp(key: K) | EraseOp(key: K) | ClearOp

  function Step<K(==), V>(s: seq<Entry<K, V>>, op: Op<K, V>, capacity: nat): seq<Entry<K, V>> {
    match op
    case PutOp(k, v) => Put(s, k, v, capacity)
    case GetOp(k) => Touch(s, k)
    case EraseOp(k) => Without(s, k)
    case ClearOp => []
  }

  function Run<K(==), V>(ops: seq<Op<K, V>>, capacity: nat): seq<Entry<K, V>> {
    if ops == [] then [] else Step(Run(ops[..|ops| - 1], capacity), ops[|ops| - 1], capacity)
  }

  lemma TouchSize<K, V>(s: seq<Entry<K, V>>, k: K)
    requires Distinct(s)
    ensures Distinct(Touch(s, k)) && |Touch(s, k)| == |s|
  {
    LookupFinds(s, k);
    WithoutDistinct(s, k);
    match Lookup(s, k)
    case Some(v) => FrontDistinct(s, k, v);
    case None =>
  }

  lemma {:induction false} RunBounded<K, V>(ops: seq<Op<K, V>>, capacity: nat)
    ensures Distinct(Run(ops, capacity)) && |Run(ops, capacity)| <= capacity
  {
    if ops != [] {
      var n := |ops| - 1;
      RunBounded(ops[..n], capacity);
      var s := Run(ops[..n], capacity);
      match ops[n]
      case PutOp(k, v) => PutDistinct(s, k, v, capacity);
      case GetOp(k) => TouchSize(s, k);
      case EraseOp(k) => WithoutDistinct(s, k);
      case ClearOp =>
    }
  }

  // ---------- what a hit returns ----------

  /** The last value put for k since it was last erased. */
  function LastPut<K(==), V>(ops: seq<Op<K, V>>, k: K): Option<V> {
    if ops == [] then None else
      var n := |ops| - 1;
      match ops[n]
      case PutOp(j, v) => if j == k then Some(v) else LastPut(ops[..n], k)
      case GetOp(_) => LastPut(ops[..n], k)
      case EraseOp(j) => if j == k then None else LastPut(ops[..n], k)
      case ClearOp => None
  }

  lemma {:induction false} TakeLookup<K, V>(s: seq<Entry<K, V>>, n: nat, k: K)
    ensures Lookup(Take(s, n), k).Some? ==> Lookup(Take(s, n), k) == Lookup(s, k)
  {
    if s != [] && |s| > n > 0 && s[0].key != k {
      assert s[..n][1..] == s[1..][..n - 1];
      TakeLookup(s[1..], n - 1, k);
      assert |s[1..]| > n - 1;
    }
  }

  /** A key that is in the cache is there with the last value put for it. */
  lemma {:induction false} HitIsLastPut<K, V>(ops: seq<Op<K, V>>, capacity: nat, k: K)
    ensures Lookup(Run(ops, capacity), k).Some? ==> Lookup(Run(ops, capacity), k) == LastPut(ops, k)
  {
    if ops != [] {
      var n := |ops| - 1;
      var s := Run(ops[..n], capacity);
      HitIsLastPut(ops[..n], capacity, k);
      match ops[n]
      case PutOp(j, v) =>
        WithoutHas(s, j, k);
        var t := [Entry(j, v)] + Without(s, j);
        assert t[1..] == Without(s, j);
        TakeLookup(t, capacity, k);
      case GetOp(j) =>
        WithoutHas(s, j, k);
        if Lookup(s, j).Some? {
          var t := [Entry(j, Lookup(s, j).value)] + Without(s, j);
          assert t[1..] == Without(s, j);
        }
      case EraseOp(j) =>
        WithoutHas(s, j, k);
        LookupFinds(Without(s, j), k);
      case ClearOp =>
    }
  }

  // ---------- the order is the order of last use ----------

  /** When k was last put or asked for: the position of that operation, plus one; 0 for never. */
  function LastUse<K(==), V>(ops: seq<Op<K, V>>, k: K): nat {
    if ops == [] then 0 else
      var n := |ops| - 1;
      if (ops[n].PutOp? || ops[n].GetOp?) && ops[n].key == k then |ops| else LastUse(ops[..n], k)
  }

  lemma {:induction false} LastUseBound<K, V>(ops: seq<Op<K, V>>, k: K)
    ensures LastUse(ops, k) <= |ops|
  {
    if ops != [] { LastUseBound(ops[..|ops| - 1], k); }
  }

  predicate ByUse<K(==), V>(s: seq<Entry<K, V>>, ops: seq<Op<K, V>>) {
    forall i, j :: 0 <= i < j < |s| ==> LastUse(ops, s[i].key) > LastUse(ops, s[j].key)
  }

  lemma {:induction false} WithoutByUse<K, V>(s: seq<Entry<K, V>>, k: K, ops: seq<Op<K, V>>)
    requires ByUse(s, ops)
    ensures ByUse(Without(s, k), ops)
  {
    if s != [] {
      var t, r := s[1..], Without(s[1..], k);
      assert ByUse(t, ops) by {
        forall i, j | 0 <= i < j < |t| ensures LastUse(ops, t[i].key) > LastUse(ops, t[j].key) {
          assert t[i] == s[i + 1] && t[j] == s[j + 1];
        }
      }
      WithoutByUse(t, k, ops);
      if s[0].key == k {
        assert Without(s, k) == r;
      } else {
        forall j | 0 <= j < |r| ensures LastUse(ops, s[0].key) > LastUse(ops, r[j].key) {
          assert Has(r, r[j].key);
          WithoutHas(t, k, r[j].key);
          var i :| 0 <= i < |t| && t[i].key == r[j].key;
          assert t[i] == s[i + 1];
        }
      }
    }
  }

  /** An operation on k at the end makes k the most recent and leaves the other keys as they were. */
  lemma FrontByUse<K, V>(s: seq<Entry<K, V>>, k: K, v: V, ops: seq<Op<K, V>>)
    requires ops != [] && (ops[|ops| - 1].PutOp? || ops[|ops| - 1].GetOp?) && ops[|ops| - 1].key == k
    requires ByUse(s, ops[..|ops| - 1])
    ensures ByUse([Entry(k, v)] + Without(s, k), ops)
  {
    var before := ops[..|ops| - 1];
    WithoutByUse(s, k, before);
    var r := Without(s, k);
    forall j | 0 <= j < |r| ensures r[j].key != k && LastUse(ops, r[j].key) == LastUse(before, r[j].key) < |ops| {
      assert Has(r, r[j].key);
      WithoutHas(s, k, r[j].key);
      LastUseBound(before, r[j].key);
    }
  }

  lemma UnusedByUse<K, V>(s: seq<Entry<K, V>>, ops: seq<Op<K, V>>)
    requires ops != [] && ByUse(s, ops[..|ops| - 1])
    requires forall i :: 0 <= i < |s| ==> LastUse(ops, s[i].key) == LastUse(ops[..|ops| - 1], s[i].key)
    ensures ByUse(s, ops)
  {
  }

  /** In every reachable state the entries are in order of last use, most recent first: the entry that
      `put` evicts is the least recently used. */
  lemma {:induction false} OrderIsRecency<K, V>(ops: seq<Op<K, V>>, capacity: nat)
    ensures ByUse(Run(ops, capacity), ops)
  {
    if ops != [] {
      var n := |ops| - 1;
      var s := Run(ops[..n], capacity);
      OrderIsRecency(ops[..n], capacity);
      match ops[n]
      case PutOp(k, v) => FrontByUse(s, k, v, ops);
      case GetOp(k) =>
        if Lookup(s, k).Some? {
          FrontByUse(s, k, Lookup(s, k).value, ops);
        } else {
          LookupFinds(s, k);
          UnusedByUse(s, ops);
        }
      case EraseOp(k) =>
        WithoutByUse(s, k, ops[..n]);
        UnusedByUse(Without(s, k), ops);
      case ClearOp =>
    }
  }

  // ---------- a larger cache holds everything a smaller one does ----------

  predicate Subsequence<T(==)>(a: seq<T>, b: seq<T>)
    decreases |b|
  {
    a == [] || (b != [] && if a[0] == b[0] then Subsequence(a[1..], b[1..]) else Subsequence(a, b[1..]))
  }

  lemma {:induction false} SubsequenceHas<K, V>(a: seq<Entry<K, V>>, b: seq<Entry<K, V>>, k: K)
    requires Subsequence(a, b) && Has(a, k)
    ensures Has(b, k)
    decreases |b|
  {
    var i :| 0 <= i < |a| && a[i].key == k;
    if a[0] != b[0] {
      SubsequenceHas(a, b[1..], k);
      var j :| 0 <= j < |b[1..]| && b[1..][j].key == k;
      assert b[j + 1].key == k;
    } else if i == 0 {
      assert b[0].key == k;
    } else {
      assert a[1..][i - 1].key == k;
      SubsequenceHas(a[1..], b[1..], k);
      var j :| 0 <= j < |b[1..]| && b[1..][j].key == k;
      assert b[j + 1].key == k;
    }
  }

  lemma {:induction false} SubsequenceLookup<K, V>(a: seq<Entry<K, V>>, b: seq<Entry<K, V>>, k: K)
    requires Subsequence(a, b) && Distinct(b) && Lookup(a, k).Some?
    ensures Lookup(b, k) == Lookup(a, k)
    decreases |b|
  {
    LookupFinds(a, k);
    if a[0] != b[0] {
      SubsequenceLookup(a, b[1..], k);
      LookupFinds(b[1..], k);
    } else if a[0].key != k {
      SubsequenceLookup(a[1..], b[1..], k);
    }
  }

  lemma {:induction false} SubsequenceSkips<T>(a: seq<T>, x: T, b: seq<T>)
    requires Subsequence(a, b)
    ensures Subsequence(a, [x] + b)
    decreases |b|, 1
  {
    assert ([x] + b)[1..] == b;
    if a != [] && a[0] == x {
      SubsequenceTail(a, b);
    }
  }

  lemma {:induction false} SubsequenceTail<T>(a: seq<T>, b: seq<T>)
    requires Subsequence(a, b) && a != []
    ensures Subsequence(a[1..], b)
    decreases |b|, 0
  {
    if a[0] == b[0] {
      SubsequenceSkips(a[1..], b[0], b[1..]);
      assert [b[0]] + b[1..] == b;
    } else {
      SubsequenceTail(a, b[1..]);
      SubsequenceSkips(a[1..], b[0], b[1..]);
      assert [b[0]] + b[1..] == b;
    }
  }

  lemma SubsequenceFront<T>(x: T, a: seq<T>, b: seq<T>)
    requires Subsequence(a, b)
    ensures Subsequence([x] + a, [x] + b)
  {
    assert ([x] + a)[1..] == a && ([x] + b)[1..] == b;
  }

  lemma {:induction false} SubsequenceWithout<K, V>(a: seq<Entry<K, V>>, b: seq<Entry<K, V>>, k: K)
    requires Subsequence(a, b)
    ensures Subsequence(Without(a, k), Without(b, k))
    decreases |b|
  {
    if a != [] {
      if a[0] == b[0] {
        SubsequenceWithout(a[1..], b[1..], k);
        if a[0].key != k {
          SubsequenceFront(a[0], Without(a[1..], k), Without(b[1..], k));
        } else {
          assert Without(a, k) == Without(a[1..], k) && Without(b, k) == Without(b[1..], k);
        }
      } else {
        SubsequenceWithout(a, b[1..], k);
        if b[0].key != k {
          SubsequenceSkips(Without(a, k), b[0], Without(b[1..], k));
        } else {
          assert Without(b, k) == Without(b[1..], k);
        }
      }
    }
  }

  /** Dropping the last element of both, or of the smaller only, keeps the relation. */
  lemma {:induction false} SubsequenceDrop<T>(a: seq<T>, b: seq<T>)
    requires Subsequence(a, b) && a != []
    ensures Subsequence(a[..|a| - 1], b[..|b| - 1])
    decreases |b|
  {
    var c, d := a[..|a| - 1], b[..|b| - 1];
    if a[0] == b[0] {
      if |a| > 1 {
        SubsequenceDrop(a[1..], b[1..]);
        assert c[1..] == a[1..][..|a| - 2];
        assert b != [] && b[1..] != [];
        assert d[1..] == b[1..][..|b| - 2];
      }
    } else {
      SubsequenceDrop(a, b[1..]);
      assert b[1..] != [];
      assert d[1..] == b[1..][..|b| - 2];
      if c != [] { assert c[0] == a[0] && d[0] == b[0]; }
    }
  }

  lemma {:induction false} SubsequenceShorter<T>(a: seq<T>, b: seq<T>)
    requires Subsequence(a, b)
    ensures |a| <= |b|
    decreases |b|
  {
    if a != [] {
      if a[0] == b[0] { SubsequenceShorter(a[1..], b[1..]); } else { SubsequenceShorter(a, b[1..]); }
    }
  }

  /** The smaller cache's list is a subsequence of the larger one's, and no more than the extra capacity is missing. */
  ghost predicate Nested<K, V>(a: seq<Entry<K, V>>, b: seq<Entry<K, V>>, n: nat, m: nat) {
    Distinct(a) && Distinct(b) && |a| <= n && |b| <= m && Subsequence(a, b) && |b| - |a| <= m - n
  }

  lemma SubsequenceDropSmaller<T>(a: seq<T>, b: seq<T>)
    requires Subsequence(a, b) && a != []
    ensures Subsequence(a[..|a| - 1], b)
  {
    SubsequenceDrop(a, b);
    SubsequenceShorter(a, b);
    SubsequenceExtend(a[..|a| - 1], b[..|b| - 1], b[|b| - 1]);
    assert b == b[..|b| - 1] + [b[|b| - 1]];
  }

  lemma {:induction false} SubsequenceExtend<T>(a: seq<T>, b: seq<T>, x: T)
    requires Subsequence(a, b)
    ensures Subsequence(a, b + [x])
    decreases |b|
  {
    if a != [] {
      assert (b + [x])[1..] == b[1..] + [x];
      if a[0] == b[0] { SubsequenceExtend(a[1..], b[1..], x); } else { SubsequenceExtend(a, b[1..], x); }
    }
  }

  lemma PutNested<K, V>(a: seq<Entry<K, V>>, b: seq<Entry<K, V>>, n: nat, m: nat, k: K, v: V)
    requires Nested(a, b, n, m) && n <= m
    ensures Nested(Put(a, k, v, n), Put(b, k, v, m), n, m)
  {
    var c, d := [Entry(k, v)] + Without(a, k), [Entry(k, v)] + Without(b, k);
    PutDistinct(a, k, v, n);
    PutDistinct(b, k, v, m);
    SubsequenceWithout(a, b, k);
    SubsequenceFront(Entry(k, v), Without(a, k), Without(b, k));
    WithoutDistinct(a, k);
    WithoutDistinct(b, k);
    if Has(a, k) { SubsequenceHas(a, b, k); }
    if |c| > n && |d| > m {
      SubsequenceDrop(c, d);
    } else if |c| > n {
      SubsequenceDropSmaller(c, d);
    }
  }

  lemma GetNested<K, V>(a: seq<Entry<K, V>>, b: seq<Entry<K, V>>, n: nat, m: nat, k: K)
    requires Nested(a, b, n, m)
    ensures Nested(Touch(a, k), Touch(b, k), n, m)
  {
    TouchSize(a, k);
    TouchSize(b, k);
    SubsequenceWithout(a, b, k);
    if Lookup(a, k).Some? {
      SubsequenceLookup(a, b, k);
      SubsequenceFront(Entry(k, Lookup(a, k).value), Without(a, k), Without(b, k));
    } else if Lookup(b, k).Some? {
      LookupFinds(a, k);
      WithoutNothing(a, k);
      SubsequenceSkips(a, Entry(k, Lookup(b, k).value), Without(b, k));
    }
  }

  lemma {:induction false} WithoutNothing<K, V>(s: seq<Entry<K, V>>, k: K)
    requires !Has(s, k)
    ensures Without(s, k) == s
  {
    if s != [] {
      assert s[0].key != k;
      forall i | 0 <= i < |s[1..]| ensures s[1..][i].key != k {
        assert s[1..][i] == s[i + 1];
      }
      WithoutNothing(s[1..], k);
    }
  }

  lemma EraseNested<K, V>(a: seq<Entry<K, V>>, b: seq<Entry<K, V>>, n: nat, m: nat, k: K)
    requires Nested(a, b, n, m)
    ensures Nested(Without(a, k), Without(b, k), n, m)
  {
    SubsequenceWithout(a, b, k);
    WithoutDistinct(a, k);
    WithoutDistinct(b, k);
    if Has(a, k) { SubsequenceHas(a, b, k); }
  }

  /** Inclusion: after the same operations, a larger cache holds every entry of a smaller one. */
  lemma {:induction false} RunNested<K, V>(ops: seq<Op<K, V>>, n: nat, m: nat)
    requires n <= m
    ensures Nested(Run(ops, n), Run(ops, m), n, m)
  {
    if ops != [] {
      var l := |ops| - 1;
      RunNested(ops[..l], n, m);
      var a, b := Run(ops[..l], n), Run(ops[..l], m);
      match ops[l]
      case PutOp(k, v) => PutNested(a, b, n, m, k, v);
      case GetOp(k) => GetNested(a, b, n, m, k);
      case EraseOp(k) => EraseNested(a, b, n, m, k);
      case ClearOp =>
    }
  }

  lemma LargerCacheHits<K, V>(ops: seq<Op<K, V>>, n: nat, m: nat, k: K)
    requires n <= m && Lookup(Run(ops, n), k).Some?
    ensures Lookup(Run(ops, m), k) == Lookup(Run(ops, n), k)
  {
    RunNested(ops, n, m);
    SubsequenceLookup(Run(ops, n), Run(ops, m), k);
  }

  // ---------- the cache itself ----------

  /** A list node; its identity is what a list iterator points at. */
  class Node<K, V> {
    const key: K
    const value: V

    constructor (key: K, value: V)
      ensures this.key == key && this.value == value
    {
      this.key, this.value := key, value;
    }
  }

  /** The list without the node an iterator points at. */
  function Erase<K, V>(list: seq<Node<K, V>>, n: Node<K, V>): seq<Node<K, V>> {
    if list == [] then [] else if list[0] == n then list[1..] else [list[0]] + Erase(list[1..], n)
  }

  function ItemsOf<K, V>(list: seq<Node<K, V>>): (s: seq<Entry<K, V>>)
    ensures |s| == |list|
    ensures forall i :: 0 <= i < |list| ==> s[i] == Entry(list[i].key, list[i].value)
  {
    seq(|list|, i requires 0 <= i < |list| => Entry(list[i].key, list[i].value))
  }

  /** The map leads from each key of the list to the node that holds it, and from no other key. */
  ghost predicate Indexed<K, V>(list: seq<Node<K, V>>, index: map<K, Node<K, V>>) {
    Distinct(ItemsOf(list)) && |index| == |list| &&
    (forall i :: 0 <= i < |list| ==> list[i].key in index && index[list[i].key] == list[i]) &&
    (forall k :: k in index ==> index[k] in list && index[k].key == k)
  }

  lemma {:induction false} EraseItems<K, V>(list: seq<Node<K, V>>, n: Node<K, V>)
    requires Distinct(ItemsOf(list)) && n in list
    ensures ItemsOf(Erase(list, n)) == Without(ItemsOf(list), n.key)
  {
    var s := ItemsOf(list);
    assert s[1..] == ItemsOf(list[1..]);
    if list[0] == n {
      assert !Has(s[1..], n.key);
      WithoutNothing(s[1..], n.key);
      assert Without(s, n.key) == s[1..];
    } else {
      assert n in list[1..];
      var j :| 0 <= j < |list[1..]| && list[1..][j] == n;
      assert s[0].key != s[j + 1].key;
      EraseItems(list[1..], n);
      assert ItemsOf(Erase(list, n)) == [s[0]] + ItemsOf(Erase(list[1..], n));
    }
  }

  lemma {:induction false} EraseMembers<K, V>(list: seq<Node<K, V>>, n: Node<K, V>, x: Node<K, V>)
    requires Distinct(ItemsOf(list)) && n in list
    ensures x in Erase(list, n) <==> x in list && x != n
    ensures |Erase(list, n)| == |list| - 1
  {
    var s := ItemsOf(list);
    assert s[1..] == ItemsOf(list[1..]);
    if list[0] == n {
      forall i | 0 <= i < |list[1..]| ensures list[1..][i] != n {
        assert s[0].key != s[i + 1].key;
      }
    } else {
      EraseMembers(list[1..], n, x);
    }
  }

  lemma IndexedErase<K, V>(list: seq<Node<K, V>>, index: map<K, Node<K, V>>, k: K)
    requires Indexed(list, index) && k in index
    ensures Indexed(Erase(list, index[k]), index - {k})
    ensures ItemsOf(Erase(list, index[k])) == Without(ItemsOf(list), k)
  {
    var n := index[k];
    EraseItems(list, n);
    WithoutDistinct(ItemsOf(list), k);
    var r := Erase(list, n);
    EraseMembers(list, n, n);
    assert index.Keys == (index - {k}).Keys + {k};
    assert |index.Keys| == |index| && |(index - {k}).Keys| == |index - {k}|;
    forall i | 0 <= i < |r| ensures r[i].key in index - {k} && index[r[i].key] == r[i] {
      EraseMembers(list, n, r[i]);
      var j :| 0 <= j < |list| && list[j] == r[i];
    }
    forall j | j in index - {k} ensures index[j] in r {
      EraseMembers(list, n, index[j]);
    }
  }

  lemma AddedKey<K, N>(index: map<K, N>, k: K, n: N)
    requires k !in index
    ensures |index[k := n]| == |index| + 1
  {
    var m := index[k := n];
    assert m.Keys == index.Keys + {k};
    assert |m.Keys| == |m| && |index.Keys| == |index|;
  }

  lemma FrontItems<K, V>(list: seq<Node<K, V>>, n: Node<K, V>)
    requires Distinct(ItemsOf(list)) && forall i :: 0 <= i < |list| ==> list[i].key != n.key
    ensures Distinct(ItemsOf([n] + list)) && ItemsOf([n] + list) == [Entry(n.key, n.value)] + ItemsOf(list)
  {
    assert ItemsOf([n] + list) == [Entry(n.key, n.value)] + ItemsOf(list);
  }

  lemma IndexedFront<K, V>(list: seq<Node<K, V>>, index: map<K, Node<K, V>>, n: Node<K, V>)
    requires Indexed(list, index) && n.key !in index
    ensures Indexed([n] + list, index[n.key := n])
    ensures ItemsOf([n] + list) == [Entry(n.key, n.value)] + ItemsOf(list)
  {
    AddedKey(index, n.key, n);
    FrontItems(list, n);
  }

  lemma {:induction false} EraseLast<K, V>(list: seq<Node<K, V>>)
    requires Distinct(ItemsOf(list)) && list != []
    ensures Erase(list, list[|list| - 1]) == list[..|list| - 1]
  {
    if |list| > 1 {
      var s := ItemsOf(list);
      assert s[0].key != s[|list| - 1].key;
      assert s[1..] == ItemsOf(list[1..]);
      EraseLast(list[1..]);
      assert list[..|list| - 1] == [list[0]] + list[1..][..|list| - 2];
    }
  }

  lemma IndexedLast<K, V>(list: seq<Node<K, V>>, index: map<K, Node<K, V>>)
    requires Indexed(list, index) && list != []
    ensures var last := list[|list| - 1];
            last.key in index && Indexed(list[..|list| - 1], index - {last.key}) &&
            ItemsOf(list[..|list| - 1]) == ItemsOf(list)[..|list| - 1]
  {
    var last := list[|list| - 1];
    assert last.key in index && index[last.key] == last;
    IndexedErase(list, index, last.key);
    EraseLast(list);
  }

  lemma IndexedLookup<K, V>(list: seq<Node<K, V>>, index: map<K, Node<K, V>>, k: K)
    requires Indexed(list, index)
    ensures Lookup(ItemsOf(list), k) == if k in index then Some(index[k].value) else None
  {
    var s := ItemsOf(list);
    LookupFinds(s, k);
    if k in index {
      var i :| 0 <= i < |list| && list[i] == index[k];
      LookupAt(s, i);
    } else {
      forall i | 0 <= i < |s| ensures s[i].key != k {
        assert list[i].key in index;
      }
    }
  }

  lemma PutBack<K, N>(index: map<K, N>, k: K)
    requires k in index
    ensures (index - {k})[k := index[k]] == index
  {
  }

  lemma KeyOf<K, V>(list: seq<Node<K, V>>, index: map<K, Node<K, V>>, k: K)
    requires Indexed(list, index) && k in index
    ensures index[k].key == k && |Erase(list, index[k])| == |list| - 1
  {
    EraseMembers(list, index[k], index[k]);
  }

  /** The node an iterator points at moves to the front; the map stays as it is. */
  lemma IndexedSplice<K, V>(list: seq<Node<K, V>>, index: map<K, Node<K, V>>, k: K)
    requires Indexed(list, index) && k in index
    ensures var now := [index[k]] + Erase(list, index[k]);
            Indexed(now, index) && |now| == |list| &&
            ItemsOf(now) == [Entry(k, index[k].value)] + Without(ItemsOf(list), k)
  {
    KeyOf(list, index, k);
    PutBack(index, k);
    IndexedErase(list, index, k);
    Rejoin(Erase(list, index[k]), index - {k}, index[k], index);
  }

  lemma Rejoin<K, V>(rest: seq<Node<K, V>>, fewer: map<K, Node<K, V>>, n: Node<K, V>, index: map<K, Node<K, V>>)
    requires Indexed(rest, fewer) && n.key !in fewer && fewer[n.key := n] == index
    ensures Indexed([n] + rest, index) && ItemsOf([n] + rest) == [Entry(n.key, n.value)] + ItemsOf(rest)
  {
    IndexedFront(rest, fewer, n);
  }

  /** What was found is found again. */
  lemma LookupSpliced<K, V>(list: seq<Node<K, V>>, index: map<K, Node<K, V>>, k: K)
    requires Indexed(list, index) && k in index
    ensures var now := [index[k]] + Erase(list, index[k]);
            Lookup(ItemsOf(list), k) == Lookup(ItemsOf(now), k) == Some(index[k].value)
  {
    IndexedLookup(list, index, k);
    IndexedSplice(list, index, k);
    IndexedLookup([index[k]] + Erase(list, index[k]), index, k);
  }

  class Cache<K(==), V> {
    var list: seq<Node<K, V>>
    var index: map<K, Node<K, V>>
    const maxSize: nat

    ghost predicate Valid()
      reads this
    {
      Indexed(list, index) && |list| <= maxSize
    }

    /** The entries, most recently used first. */
    ghost function Items(): seq<Entry<K, V>>
      reads this
    {
      ItemsOf(list)
    }

    constructor (maxSize: nat)
      ensures Valid() && Items() == [] && this.maxSize == maxSize
    {
      this.maxSize := maxSize;
      list, index := [], map[];
    }

    /** A new node at the front of the list. */
    method PushFront(key: K, value: V)
      requires Indexed(list, index) && key !in index
      modifies this
      ensures Indexed(list, index) && Items() == [Entry(key, value)] + old(Items())
    {
      var n := new Node(key, value);
      IndexedFront(list, index, n);
      list := [n] + list;
      index := index[key := n];
    }

    /** Drops the node at the end of the list. */
    method PopBack()
      requires Indexed(list, index) && list != []
      modifies this
      ensures Indexed(list, index) && Items() == old(Items()[..|Items()| - 1])
    {
      IndexedLast(list, index);
      index := index - {list[|list| - 1].key};
      list := list[..|list| - 1];
    }

    /** The source's `put`. */
    method Insert(key: K, value: V)
      requires Valid()
      modifies this
      ensures Valid() && Items() == Put(old(Items()), key, value, maxSize)
    {
      EraseIfExists(key);
      PushFront(key, value);
      if |index| > maxSize {
        PopBack();
      }
    }

    /** None where the source throws. */
    method Get(key: K) returns (value: Option<V>)
      requires Valid()
      modifies this
      ensures Valid() && Items() == Touch(old(Items()), key)
      ensures value == Lookup(old(Items()), key) == Lookup(Items(), key)
    {
      if key !in index {
        IndexedLookup(list, index, key);
        return None;
      }
      var n := index[key];
      IndexedLookup(list, index, key);
      IndexedSplice(list, index, key);
      LookupSpliced(list, index, key);
      // splice: the node itself moves to the front, so the map stays as it is
      list := [n] + Erase(list, n);
      return Some(n.value);
    }

    method EraseIfExists(key: K)
      requires Valid()
      modifies this
      ensures Valid() && Items() == Without(old(Items()), key) && key !in index
    {
      if key in index {
        IndexedErase(list, index, key);
        list := Erase(list, index[key]);
        index := index - {key};
      } else {
        IndexedLookup(list, index, key);
        LookupFinds(Items(), key);
        WithoutNothing(Items(), key);
      }
    }

    method Clear()
      requires Valid()
      modifies this
      ensures Valid() && Items() == []
    {
      index := map[];
      list := [];
    }

    method Exists(key: K) returns (found: bool)
      requires Valid()
      ensures found <==> Has(Items(), key)
    {
      IndexedLookup(list, index, key);
      LookupFinds(Items(), key);
      found := key in index;
    }

    method Size() returns (n: nat)
      requires Valid()
      ensures n == |Items()| <= maxSize
    {
      n := |index|;
    }
  }

  /** Any sequence of operations on a new cache leaves it in the state the abstract run describes. */
  method Replay<K(==), V>(ops: seq<Op<K, V>>, capacity: nat) returns (c: Cache<K, V>)
    ensures c.Valid() && c.Items() == Run(ops, capacity)
  {
    c := new Cache(capacity);
    for i := 0 to |ops|
      invariant fresh(c) && c.Valid() && c.maxSize == capacity && c.Items() == Run(ops[..i], capacity)
    {
      assert ops[..i + 1][..i] == ops[..i];
      match ops[i] {
        case PutOp(k, v) => c.Insert(k, v);
        case GetOp(k) => var _ := c.Get(k);
        case EraseOp(k) => c.EraseIfExists(k);
        case ClearOp => c.Clear();
      }
    }
    assert ops[..|ops|] == ops;
  }
}
