/** Checking and normalising quorum sets, as src/scp/LocalNode.cpp does. */
module QuorumSets {
  import opened Sealing
  import opened Quorum

  predicate Distinct(s: seq<NodeID>) {
    forall i, j :: 0 <= i < j < |s| ==> s[i] != s[j]
  }

  lemma DistinctAppend(a: seq<NodeID>, b: seq<NodeID>)
    ensures Distinct(a + b) <==> Distinct(a) && Distinct(b) && forall n :: n in b ==> n !in a
  {
    var c := a + b;
    if Distinct(c) {
      forall i, j | 0 <= i < j < |a| ensures a[i] != a[j] { assert c[i] != c[j]; }
      forall i, j | 0 <= i < j < |b| ensures b[i] != b[j] { assert c[|a| + i] != c[|a| + j]; }
      forall n | n in b ensures n !in a {
        var j :| 0 <= j < |b| && b[j] == n;
        forall i | 0 <= i < |a| ensures a[i] != n { assert c[i] != c[|a| + j]; }
      }
    }
    if Distinct(a) && Distinct(b) && forall n :: n in b ==> n !in a {
      forall i, j | 0 <= i < j < |c| ensures c[i] != c[j] {
        if j < |a| { assert a[i] != a[j]; }
        else if i >= |a| { assert b[i - |a|] != b[j - |a|]; }
        else { assert c[j] == b[j - |a|] && c[j] in b && c[i] == a[i] && c[i] in a; }
      }
    }
  }

  lemma {:induction false} InnerPrefix(q: QSet, k: nat, n: nat)
    requires k <= n <= |q.inner|
    ensures InnerNodes(q, k) <= InnerNodes(q, n)
    decreases n
  {
    if k < n { InnerPrefix(q, k, n - 1); }
  }

  lemma DistinctPrefix(s: seq<NodeID>, t: seq<NodeID>)
    requires s <= t && Distinct(t)
    ensures Distinct(s)
  {
    forall i, j | 0 <= i < j < |s| ensures s[i] != s[j] { assert t[i] != t[j]; }
  }

  /** Thresholds in range, and no node named twice. */
  predicate Sane(q: QSet, extra: bool) {
    InRange(q, extra) && Distinct(NodeList(q))
  }

  predicate FreshFor(s: seq<NodeID>, known: set<NodeID>) {
    forall n :: n in s ==> n !in known
  }

  /** The validators are added to the known nodes, unless one is known already. */
  method AddValidators(vs: seq<NodeID>, known: set<NodeID>) returns (ok: bool, knownNow: set<NodeID>)
    ensures ok <==> Distinct(vs) && FreshFor(vs, known)
    ensures ok ==> knownNow == known + Elements(vs)
  {
    knownNow := known;
    for i := 0 to |vs|
      invariant Distinct(vs[..i]) && FreshFor(vs[..i], known) && knownNow == known + Elements(vs[..i])
    {
      if vs[i] in knownNow {
        assert vs[i] in vs;
        if vs[i] in vs[..i] {
          var j :| 0 <= j < i && vs[..i][j] == vs[i];
          assert vs[j] == vs[i];
        }
        return false, knownNow;
      }
      assert vs[..i + 1] == vs[..i] + [vs[i]];
      DistinctAppend(vs[..i], [vs[i]]);
      knownNow := knownNow + {vs[i]};
    }
    assert vs[..|vs|] == vs;
    ok := true;
  }

  /** `isQuorumSetSaneInternal`: the known nodes are those seen before. */
  method SaneInternal(q: QSet, known: set<NodeID>, extra: bool) returns (ok: bool, knownNow: set<NodeID>)
    ensures ok <==> Sane(q, extra) && FreshFor(NodeList(q), known)
    ensures ok ==> knownNow == known + Elements(NodeList(q))
    decreases q
  {
    var total := |q.validators| + |q.inner|;
    if !(1 <= q.threshold <= total && (!extra || q.threshold >= total - q.threshold + 1)) {
      return false, known;
    }
    ok, knownNow := AddValidators(q.validators, known);
    assert q.validators <= NodeList(q);
    if !ok {
      if Distinct(NodeList(q)) { DistinctPrefix(q.validators, NodeList(q)); }
      return;
    }
    assert q.validators + InnerNodes(q, 0) == q.validators;
    for i := 0 to |q.inner|
      invariant Distinct(q.validators + InnerNodes(q, i)) && FreshFor(q.validators + InnerNodes(q, i), known)
      invariant knownNow == known + Elements(q.validators + InnerNodes(q, i))
      invariant forall k :: 0 <= k < i ==> InRange(q.inner[k], extra)
    {
      ghost var before := q.validators + InnerNodes(q, i);
      ghost var after := q.validators + InnerNodes(q, i + 1);
      ghost var mid := knownNow;
      NextInner(q, i, known, mid);
      ok, knownNow := SaneInternal(q.inner[i], knownNow, extra);
      if !ok {
        return;
      }
    }
    ok := true;
  }

  lemma NextInner(q: QSet, i: nat, known: set<NodeID>, mid: set<NodeID>)
    requires i < |q.inner| && Distinct(q.validators + InnerNodes(q, i))
    requires FreshFor(q.validators + InnerNodes(q, i), known)
    requires mid == known + Elements(q.validators + InnerNodes(q, i))
    ensures var more := NodeList(q.inner[i]); var after := q.validators + InnerNodes(q, i + 1);
            (Distinct(more) && FreshFor(more, mid) <==> Distinct(after) && FreshFor(after, known)) &&
            (Distinct(NodeList(q)) && FreshFor(NodeList(q), known) ==> Distinct(more) && FreshFor(more, mid)) &&
            mid + Elements(more) == known + Elements(after)
  {
    var before, more, after := q.validators + InnerNodes(q, i), NodeList(q.inner[i]),
        q.validators + InnerNodes(q, i + 1);
    assert after == before + more;
    DistinctAppend(before, more);
    InnerPrefix(q, i + 1, |q.inner|);
    assert after <= NodeList(q);
    if Distinct(NodeList(q)) { DistinctPrefix(after, NodeList(q)); }
    forall n | n in after ensures n in NodeList(q) { }
  }

  /** The source's `isQuorumSetSane`. */
  method IsQuorumSetSane(q: QSet, extraChecks: bool) returns (ok: bool)
    ensures ok <==> Sane(q, extraChecks)
  {
    var known;
    ok, known := SaneInternal(q, {}, extraChecks);
  }

  // ---------- normalising ----------

  /** The same slices and the same blocking sets. */
  ghost predicate SameMeaning(q: QSet, r: QSet) {
    forall k :: Seal(Readings, k) ==>
        forall s: set<NodeID> :: Slice(q, s) == Slice(r, s) && Blocked(q, s) == Blocked(r, s)
  }

  lemma MeaningOf(q: QSet, r: QSet, s: set<NodeID>)
    requires SameMeaning(q, r)
    ensures Slice(q, s) == Slice(r, s) && Blocked(q, s) == Blocked(r, s)
  {
    assert Seal(Readings, 0);
  }

  lemma SameMeaningTwice(q: QSet, r: QSet, t: QSet)
    requires SameMeaning(q, r) && SameMeaning(r, t)
    ensures SameMeaning(q, t)
  {
    forall s: set<NodeID> ensures Slice(q, s) == Slice(t, s) && Blocked(q, s) == Blocked(t, s) {
      MeaningOf(q, r, s);
      MeaningOf(r, t, s);
    }
  }

  predicate IsSingleton(q: QSet) {
    q.threshold == 1 && |q.validators| == 1 && q.inner == []
  }

  predicate IsWrapper(q: QSet) {
    q.threshold == 1 && q.validators == [] && |q.inner| == 1
  }

  /** Nothing left to simplify. */
  predicate IsNormal(q: QSet)
    decreases q
  {
    !IsWrapper(q) && forall k :: 0 <= k < |q.inner| ==> IsNormal(q.inner[k]) && !IsSingleton(q.inner[k])
  }

  /** r has done with the first k inner sets of q: as many entries, meeting as many of the same sets. */
  ghost predicate SameEntries(r: QSet, q: QSet, k: nat) {
    k <= |q.inner| && r.threshold == q.threshold && r.Size() == |q.validators| + k &&
    forall j :: Seal(Cycles, j) ==> forall s: set<NodeID> ::
      CountNodes(r.validators, s) + CountSlices(r, |r.inner|, s) == CountNodes(q.validators, s) +
          CountSlices(q, k, s) &&
      CountNodes(r.validators, s) + CountBlocked(r, |r.inner|, s) == CountNodes(q.validators, s) + CountBlocked(q, k, s)
  }

  lemma {:induction false} SameInner(q: QSet, r: QSet, k: nat, s: set<NodeID>)
    requires k <= |q.inner| && k <= |r.inner| && q.inner[..k] == r.inner[..k]
    ensures CountSlices(q, k, s) == CountSlices(r, k, s) && CountBlocked(q, k, s) == CountBlocked(r, k, s)
    decreases k
  {
    if k > 0 {
      assert q.inner[k - 1] == q.inner[..k][k - 1] == r.inner[..k][k - 1] == r.inner[k - 1];
      assert q.inner[..k - 1] == q.inner[..k][..k - 1] == r.inner[..k][..k - 1] == r.inner[..k - 1];
      SameInner(q, r, k - 1, s);
    }
  }

  lemma SingletonMeans(q: QSet, s: set<NodeID>)
    requires IsSingleton(q)
    ensures Slice(q, s) == Blocked(q, s) == (q.validators[0] in s)
  {
    assert q.validators[..0] == [];
    assert CountNodes(q.validators, s) == if q.validators[0] in s then 1 else 0;
  }

  /** A normalised inner set is kept. */
  lemma KeepInner(r: QSet, q: QSet, k: nat, n: QSet)
    requires k < |q.inner| && SameEntries(r, q, k) && SameMeaning(q.inner[k], n)
    ensures SameEntries(r.(inner := r.inner + [n]), q, k + 1)
  {
    var r' := r.(inner := r.inner + [n]);
    forall s: set<NodeID>
      ensures CountNodes(r'.validators, s) + CountSlices(r', |r'.inner|, s) == CountNodes(q.validators, s) +
          CountSlices(q, k + 1, s)
      ensures CountNodes(r'.validators, s) + CountBlocked(r', |r'.inner|, s) == CountNodes(q.validators, s) +
          CountBlocked(q, k + 1, s)
    {
      assert r'.inner[..|r.inner|] == r.inner == r.inner[..|r.inner|];
      SameInner(r, r', |r.inner|, s);
      MeaningOf(q.inner[k], n, s);
      assert Seal(Cycles, 0);
    }
  }

  /** A singleton joins the validators. */
  lemma MergeInner(r: QSet, q: QSet, k: nat, n: QSet)
    requires k < |q.inner| && SameEntries(r, q, k) && SameMeaning(q.inner[k], n) && IsSingleton(n)
    ensures SameEntries(r.(validators := r.validators + [n.validators[0]]), q, k + 1)
  {
    var r' := r.(validators := r.validators + [n.validators[0]]);
    forall s: set<NodeID>
      ensures CountNodes(r'.validators, s) + CountSlices(r', |r'.inner|, s) == CountNodes(q.validators, s) +
          CountSlices(q, k + 1, s)
      ensures CountNodes(r'.validators, s) + CountBlocked(r', |r'.inner|, s) == CountNodes(q.validators, s) +
          CountBlocked(q, k + 1, s)
    {
      SameInner(r, r', |r.inner|, s);
      assert r'.validators[..|r.validators|] == r.validators;
      SingletonMeans(n, s);
      MeaningOf(q.inner[k], n, s);
      assert Seal(Cycles, 0);
    }
  }

  lemma AllEntries(r: QSet, q: QSet)
    requires SameEntries(r, q, |q.inner|)
    ensures SameMeaning(q, r)
  {
    forall s: set<NodeID> ensures Slice(q, s) == Slice(r, s) && Blocked(q, s) == Blocked(r, s) {
      assert Seal(Cycles, 0);
    }
  }

  lemma Unwrap(q: QSet)
    requires IsWrapper(q)
    ensures SameMeaning(q, q.inner[0])
  {
    forall s: set<NodeID> ensures Slice(q, s) == Slice(q.inner[0], s) && Blocked(q, s) == Blocked(q.inner[0], s) {
      assert CountSlices(q, 0, s) == 0 && CountBlocked(q, 0, s) == 0;
      assert CountSlices(q, 1, s) == if Slice(q.inner[0], s) then 1 else 0;
      assert CountBlocked(q, 1, s) == if Blocked(q.inner[0], s) then 1 else 0;
    }
  }

  lemma {:induction false} InnerNodesSame(q: QSet, r: QSet, k: nat)
    requires k <= |q.inner| && k <= |r.inner| && q.inner[..k] == r.inner[..k]
    ensures InnerNodes(q, k) == InnerNodes(r, k)
    decreases k
  {
    if k > 0 {
      assert q.inner[k - 1] == q.inner[..k][k - 1] == r.inner[..k][k - 1] == r.inner[k - 1];
      assert q.inner[..k - 1] == q.inner[..k][..k - 1] == r.inner[..k][..k - 1] == r.inner[..k - 1];
      InnerNodesSame(q, r, k - 1);
    }
  }

  lemma KeepNodes(r: QSet, n: QSet)
    ensures multiset(NodeList(r.(inner := r.inner + [n]))) == multiset(NodeList(r)) + multiset(NodeList(n))
  {
    var r' := r.(inner := r.inner + [n]);
    assert r'.inner[..|r.inner|] == r.inner == r.inner[..|r.inner|];
    InnerNodesSame(r, r', |r.inner|);
    assert NodeList(r') == NodeList(r) + NodeList(n);
  }

  lemma MergeNodes(r: QSet, n: QSet)
    requires IsSingleton(n)
    ensures multiset(NodeList(r.(validators := r.validators + [n.validators[0]]))) == multiset(NodeList(r)) +
        multiset(NodeList(n))
  {
    var v := n.validators[0];
    var r' := r.(validators := r.validators + [v]);
    InnerNodesSame(r, r', |r.inner|);
    assert NodeList(n) == n.validators + [] == [v];
    assert NodeList(r') == r.validators + [v] + InnerNodes(r, |r.inner|);
    assert multiset(NodeList(r')) == multiset(r.validators) + multiset([v]) + multiset(InnerNodes(r, |r.inner|));
    assert multiset(NodeList(r)) == multiset(r.validators) + multiset(InnerNodes(r, |r.inner|));
  }

  lemma WrapperNodes(q: QSet)
    requires IsWrapper(q)
    ensures NodeList(q) == NodeList(q.inner[0])
  {
    assert InnerNodes(q, 0) == [];
    assert InnerNodes(q, 1) == NodeList(q.inner[0]);
  }

  predicate InnerInRange(q: QSet, k: nat, extra: bool)
    requires k <= |q.inner|
  {
    forall j :: 0 <= j < k ==> InRange(q.inner[j], extra)
  }

  /** Thresholds are in range in one exactly when they are in the other. */
  predicate SameRange(q: QSet, r: QSet) {
    (InRange(q, false) <==> InRange(r, false)) && (InRange(q, true) <==> InRange(r, true))
  }

  predicate SameInnerRange(q: QSet, k: nat, r: QSet)
    requires k <= |q.inner|
  {
    (InnerInRange(q, k, false) <==> InnerInRange(r, |r.inner|, false)) &&
    (InnerInRange(q, k, true) <==> InnerInRange(r, |r.inner|, true))
  }

  lemma KeepRange(q: QSet, k: nat, r: QSet, n: QSet)
    requires k < |q.inner| && SameInnerRange(q, k, r) && SameRange(q.inner[k], n)
    ensures SameInnerRange(q, k + 1, r.(inner := r.inner + [n]))
  {
    var r' := r.(inner := r.inner + [n]);
    forall extra
      ensures InnerInRange(r', |r'.inner|, extra) <==> InnerInRange(r, |r.inner|, extra) && InRange(n, extra)
    {
      assert r'.inner[|r.inner|] == n;
      assert forall j :: 0 <= j < |r.inner| ==> r'.inner[j] == r.inner[j];
    }
    forall extra ensures InnerInRange(q, k + 1, extra) <==> InnerInRange(q, k, extra) && InRange(q.inner[k], extra) { }
  }

  lemma MergeRange(q: QSet, k: nat, r: QSet, n: QSet)
    requires k < |q.inner| && SameInnerRange(q, k, r) && SameRange(q.inner[k], n) && IsSingleton(n)
    ensures SameInnerRange(q, k + 1, r.(validators := r.validators + [n.validators[0]]))
  {
    assert InRange(n, false) && InRange(n, true);
    forall extra ensures InnerInRange(q, k + 1, extra) <==> InnerInRange(q, k, extra) && InRange(q.inner[k], extra) { }
  }

  lemma WrapperRange(q: QSet)
    requires IsWrapper(q)
    ensures SameRange(q, q.inner[0])
  {
  }

  /** What normalising the first k inner sets keeps. */
  ghost predicate Normalizing(q: QSet, k: nat, r: QSet) {
    SameEntries(r, q, k) && SameInnerRange(q, k, r) && NormalNodes(q, k, r)
  }

  ghost predicate NormalNodes(q: QSet, k: nat, r: QSet)
    requires k <= |q.inner|
  {
    forall m :: Seal(Outcomes, m) ==>
      multiset(NodeList(r)) == multiset(q.validators + InnerNodes(q, k)) &&
      forall j :: 0 <= j < |r.inner| ==> IsNormal(r.inner[j]) && !IsSingleton(r.inner[j])
  }

  lemma MoreNodes(q: QSet, k: nat)
    requires k < |q.inner|
    ensures multiset(q.validators + InnerNodes(q, k + 1)) == multiset(q.validators + InnerNodes(q, k)) +
        multiset(NodeList(q.inner[k]))
  {
    assert q.validators + InnerNodes(q, k + 1) == q.validators + InnerNodes(q, k) + NodeList(q.inner[k]);
  }

  lemma MergeNormal(q: QSet, k: nat, r: QSet, n: QSet)
    requires k < |q.inner| && NormalNodes(q, k, r) && multiset(NodeList(n)) == multiset(NodeList(q.inner[k]))
    requires IsSingleton(n)
    ensures NormalNodes(q, k + 1, r.(validators := r.validators + [n.validators[0]]))
  {
    assert Seal(Outcomes, 0);
    MoreNodes(q, k);
    MergeNodes(r, n);
  }

  lemma KeepNormal(q: QSet, k: nat, r: QSet, n: QSet)
    requires k < |q.inner| && NormalNodes(q, k, r) && multiset(NodeList(n)) == multiset(NodeList(q.inner[k]))
    requires IsNormal(n) && !IsSingleton(n)
    ensures NormalNodes(q, k + 1, r.(inner := r.inner + [n]))
  {
    assert Seal(Outcomes, 0);
    MoreNodes(q, k);
    KeepNodes(r, n);
  }

  ghost predicate Normalized(q: QSet, r: QSet) {
    SameMeaning(q, r) && IsNormal(r) && multiset(NodeList(r)) == multiset(NodeList(q)) && SameRange(q, r)
  }

  lemma NormalizeStart(q: QSet)
    ensures Normalizing(q, 0, QSet(q.threshold, q.validators, []))
  {
    var r := QSet(q.threshold, q.validators, []);
    assert NodeList(r) == q.validators + InnerNodes(q, 0);
  }

  lemma NormalizeStep(q: QSet, k: nat, r: QSet, n: QSet)
    requires k < |q.inner| && Normalizing(q, k, r) && Normalized(q.inner[k], n)
    ensures Normalizing(q, k + 1, if IsSingleton(n) then r.(validators := r.validators + [n.validators[0]])
        else r.(inner := r.inner + [n]))
  {
    if IsSingleton(n) {
      MergeInner(r, q, k, n);
      MergeNormal(q, k, r, n);
      MergeRange(q, k, r, n);
    } else {
      KeepInner(r, q, k, n);
      KeepNormal(q, k, r, n);
      KeepRange(q, k, r, n);
    }
  }

  lemma NormalizeEnd(q: QSet, r: QSet)
    requires Normalizing(q, |q.inner|, r)
    ensures Normalized(q, if IsWrapper(r) then r.inner[0] else r)
  {
    assert Seal(Outcomes, 0);
    AllEntries(r, q);
    assert SameRange(q, r);
    if IsWrapper(r) {
      Unwrap(r);
      SameMeaningTwice(q, r, r.inner[0]);
      WrapperNodes(r);
      WrapperRange(r);
    }
  }

  /** The source's `normalizeQSet`: the same meaning, the same nodes and the same verdict on thresholds, in a form that
      cannot be simplified further. */
  method Normalize(q: QSet) returns (r: QSet)
    ensures Normalized(q, r)
    decreases q
  {
    r := QSet(q.threshold, q.validators, []);
    NormalizeStart(q);
    for i := 0 to |q.inner|
      invariant Normalizing(q, i, r)
    {
      var n := Normalize(q.inner[i]);
      NormalizeStep(q, i, r, n);
      if n.threshold == 1 && |n.validators| == 1 && |n.inner| == 0 {
        r := r.(validators := r.validators + [n.validators[0]]);
      } else {
        r := r.(inner := r.inner + [n]);
      }
    }
    NormalizeEnd(q, r);
    if r.threshold == 1 && |r.validators| == 0 && |r.inner| == 1 {
      r := r.inner[0];
    }
  }
}
