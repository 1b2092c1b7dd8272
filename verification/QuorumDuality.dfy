/** Exactly when blocking is the complement of containing a slice, for the nested sets of src/scp/LocalNode.cpp. */
module QuorumDuality {
  import opened Quorum
  import opened QuorumSets

  /** Blocking a set and containing a slice of it are complementary. */
  ghost predicate Dual(q: QSet) {
    forall s: set<NodeID>, t: set<NodeID> :: Opposite(NodeList(q), s, t) ==> (Blocked(q, s) <==> !Slice(q, t))
  }

  /** Neither does s block the set nor does the rest contain a slice. */
  ghost predicate Undecided(q: QSet, s: set<NodeID>, t: set<NodeID>) {
    Opposite(NodeList(q), s, t) && !Blocked(q, s) && !Slice(q, t)
  }

  /** The nodes of inner set k are among those of the first j. */
  lemma InnerWithin(q: QSet, k: nat, j: nat)
    requires k < j <= |q.inner|
    ensures forall n :: n in NodeList(q.inner[k]) ==> n in InnerNodes(q, j)
  {
    InnerPrefix(q, k + 1, j);
    assert InnerNodes(q, k + 1) == InnerNodes(q, k) + NodeList(q.inner[k]);
  }

  lemma InnerDistinct(q: QSet, k: nat)
    requires Distinct(NodeList(q)) && k < |q.inner|
    ensures Distinct(InnerNodes(q, k + 1)) && Distinct(InnerNodes(q, k)) && Distinct(NodeList(q.inner[k]))
    ensures forall n :: n in NodeList(q.inner[k]) ==> n !in InnerNodes(q, k)
  {
    DistinctAppend(q.validators, InnerNodes(q, |q.inner|));
    InnerPrefix(q, k + 1, |q.inner|);
    DistinctPrefix(InnerNodes(q, k + 1), InnerNodes(q, |q.inner|));
    DistinctAppend(InnerNodes(q, k), NodeList(q.inner[k]));
  }

  /** How many of the first j inner sets are not the one with index k. */
  function Others(j: nat, k: nat): nat {
    if k < j then j - 1 else j
  }

  /** s and t say of the first j inner sets that so many may be slices and so many blocked. */
  ghost predicate Dealt(q: QSet, j: nat, s: set<NodeID>, t: set<NodeID>, slices: nat, blocked: nat)
    requires j <= |q.inner|
  {
    s + t <= Elements(InnerNodes(q, j)) && Opposite(InnerNodes(q, j), s, t) &&
    CountSlices(q, j, t) <= slices && CountBlocked(q, j, s) <= blocked
  }

  /** One more inner set, on whose nodes s1 and t1 decide. */
  lemma DealOne(q: QSet, j: nat, s: set<NodeID>, t: set<NodeID>, slices: nat, blocked: nat, s1: set<NodeID>,
                t1: set<NodeID>)
    requires Distinct(NodeList(q)) && j < |q.inner| && Dealt(q, j, s, t, slices, blocked)
    requires Opposite(NodeList(q.inner[j]), s1, t1)
    ensures var named := Elements(NodeList(q.inner[j]));
            Dealt(q, j + 1, s + s1 * named, t + t1 * named, slices + (if Slice(q.inner[j], t1) then 1 else 0),
                  blocked + (if Blocked(q.inner[j], s1) then 1 else 0))
  {
    var named := Elements(NodeList(q.inner[j]));
    var s2, t2 := s + s1 * named, t + t1 * named;
    InnerDistinct(q, j);
    assert InnerNodes(q, j + 1) == InnerNodes(q, j) + NodeList(q.inner[j]);
    CountSlicesGrows(q, j, t2, t);
    CountBlockedGrows(q, j, s2, s);
    if Slice(q.inner[j], t2) { SliceGrows(q.inner[j], t2, t1); }
    if Blocked(q.inner[j], s2) { BlockedGrows(q.inner[j], s2, s1); }
  }

  /** Of the first j inner sets without the one that is undecided, as many as wanted can be kept from being blocked
      while the rest are kept from having a slice. */
  lemma {:induction false} DealSets(q: QSet, j: nat, k: nat, a: nat, s0: set<NodeID>, t0: set<NodeID>)
    returns (s: set<NodeID>, t: set<NodeID>)
    requires Distinct(NodeList(q)) && j <= |q.inner| && k < |q.inner| && a <= Others(j, k)
    requires Undecided(q.inner[k], s0, t0)
    ensures Dealt(q, j, s, t, a, Others(j, k) - a)
    decreases j
  {
    if j == 0 {
      s, t := {}, {};
    } else {
      var i := j - 1;
      var named := Elements(NodeList(q.inner[i]));
      if i == k {
        s, t := DealSets(q, i, k, a, s0, t0);
        DealOne(q, i, s, t, a, Others(i, k) - a, s0, t0);
        s, t := s + s0 * named, t + t0 * named;
      } else if a <= Others(i, k) {
        s, t := DealSets(q, i, k, a, s0, t0);
        NothingSlices(q.inner[i]);
        DealOne(q, i, s, t, a, Others(i, k) - a, named, {});
        s, t := s + named * named, t + {} * named;
      } else {
        s, t := DealSets(q, i, k, a - 1, s0, t0);
        NothingBlocks(q.inner[i]);
        DealOne(q, i, s, t, a - 1, Others(i, k) - (a - 1), {}, named);
        s, t := s + {} * named, t + named * named;
      }
    }
  }

  /** Of distinct nodes, those that come first can be separated from the rest. */
  lemma {:induction false} DealNodes(vs: seq<NodeID>, a: nat)
    requires a <= |vs| && Distinct(vs)
    ensures CountNodes(vs, Elements(vs[..a])) == a && CountNodes(vs, Elements(vs[a..])) == |vs| - a
    ensures Opposite(vs, Elements(vs[a..]), Elements(vs[..a]))
  {
    assert vs == vs[..a] + vs[a..];
    DistinctAppend(vs[..a], vs[a..]);
    NodesEitherWay(vs, Elements(vs[a..]), Elements(vs[..a]));
    CountFirst(vs, a);
  }

  lemma {:induction false} CountFirst(vs: seq<NodeID>, a: nat)
    requires a <= |vs| && Distinct(vs)
    ensures CountNodes(vs, Elements(vs[..a])) == a
    decreases |vs|
  {
    if vs != [] {
      var ws := vs[..|vs| - 1];
      var last := vs[|vs| - 1];
      if a == |vs| {
        CountFirst(ws, a - 1);
        CountNodesGrows(ws, Elements(ws[..a - 1]), Elements(vs[..a]));
        assert vs[..a] == vs;
        assert last in vs;
      } else {
        assert ws[..a] == vs[..a];
        CountFirst(ws, a);
        forall i | 0 <= i < a ensures vs[i] != last { }
      }
    }
  }

  lemma {:induction false} FindUndecided(q: QSet) returns (s: set<NodeID>, t: set<NodeID>)
    requires Distinct(NodeList(q)) && !InRange(q, false)
    ensures Undecided(q, s, t)
    decreases q
  {
    if q.threshold == 0 {
      s, t := Elements(NodeList(q)), {};
      NothingSlices(q);
    } else if q.threshold > q.Size() {
      s, t := {}, Elements(NodeList(q));
      NothingBlocks(q);
    } else {
      var k :| 0 <= k < |q.inner| && !InRange(q.inner[k], false);
      InnerDistinct(q, k);
      s, t := FindUndecided(q.inner[k]);
      s, t := Spread(q, k, s, t);
    }
  }

  /** An inner set that is undecided leaves the whole set undecided, if the other entries are shared out as it takes. */
  lemma Spread(q: QSet, k: nat, s0: set<NodeID>, t0: set<NodeID>) returns (s: set<NodeID>, t: set<NodeID>)
    requires Distinct(NodeList(q)) && k < |q.inner| && 1 <= q.threshold <= q.Size() && Undecided(q.inner[k], s0, t0)
    ensures Undecided(q, s, t)
  {
    var vs := q.validators;
    var a := if q.threshold - 1 <= |vs| then q.threshold - 1 else |vs|;
    var s1, t1 := DealSets(q, |q.inner|, k, q.threshold - 1 - a, s0, t0);
    assert vs <= NodeList(q);
    DistinctPrefix(vs, NodeList(q));
    DealNodes(vs, a);
    s, t := s1 + Elements(vs[a..]), t1 + Elements(vs[..a]);
    Joined(q, a, s1, t1);
    CountNodesGrows(vs, s, Elements(vs[a..]));
    CountNodesGrows(vs, t, Elements(vs[..a]));
    CountSlicesGrows(q, |q.inner|, t, t1);
    CountBlockedGrows(q, |q.inner|, s, s1);
  }

  lemma Joined(q: QSet, a: nat, s1: set<NodeID>, t1: set<NodeID>)
    requires Distinct(NodeList(q)) && a <= |q.validators| && s1 + t1 <= Elements(InnerNodes(q, |q.inner|))
    requires Opposite(InnerNodes(q, |q.inner|), s1, t1)
    requires Opposite(q.validators, Elements(q.validators[a..]), Elements(q.validators[..a]))
    ensures var s, t := s1 + Elements(q.validators[a..]), t1 + Elements(q.validators[..a]);
            Opposite(NodeList(q), s, t) &&
            (forall n :: n in q.validators ==> n !in s1 + t1) &&
            (forall n :: n in InnerNodes(q, |q.inner|) ==> n !in q.validators)
  {
    DistinctAppend(q.validators, InnerNodes(q, |q.inner|));
    forall n | n in q.validators ensures n !in s1 + t1 { assert n !in InnerNodes(q, |q.inner|); }
  }

  /** For sets that name no node twice, blocking and containing a slice are complementary exactly when the thresholds of
      the set and of all sets inside it are in range. */
  lemma DualExactly(q: QSet)
    requires Distinct(NodeList(q))
    ensures Dual(q) <==> InRange(q, false)
  {
    if InRange(q, false) {
      forall s: set<NodeID>, t: set<NodeID> | Opposite(NodeList(q), s, t) ensures Blocked(q, s) <==> !Slice(q, t) {
        Duality(q, s, t);
      }
    } else {
      var s, t := FindUndecided(q);
      assert Opposite(NodeList(q), s, t);
    }
  }
}
