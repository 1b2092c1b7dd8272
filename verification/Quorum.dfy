/** Quorum sets of src/scp/LocalNode.cpp: nested thresholds over nodes, the slices and the blocking sets they describe,
    and the search for a quorum. */
module Quorum {
  type NodeID = nat
  type UInt32 = x: nat | x < 0x1_0000_0000

  datatype Option<T> = None | Some(value: T)

  /** `SCPQuorumSet`: so many of the entries, which are nodes and further sets. */
  datatype QSet = QSet(threshold: UInt32, validators: seq<NodeID>, inner: seq<QSet>) {
    function Size(): nat { |validators| + |inner| }
  }

  // ---------- what a quorum set means ----------

  /** How many of the entries are nodes of s. */
  function CountNodes(vs: seq<NodeID>, s: set<NodeID>): (n: nat)
    ensures n <= |vs|
  {
    if vs == [] then 0 else CountNodes(vs[..|vs| - 1], s) + if vs[|vs| - 1] in s then 1 else 0
  }

  /** The number of entries that make a slice. The counter of the source is unsigned, so from zero it counts down
      through all its values. */
  function Needed(threshold: UInt32): nat {
    if threshold == 0 then 0x1_0000_0000 else threshold
  }

  /** The counter when so many are still needed. */
  function LeftOver(n: int): int {
    if n == 0x1_0000_0000 then 0 else n
  }

  /** s contains a slice. */
  predicate Slice(q: QSet, s: set<NodeID>)
    decreases q, |q.inner| + 1
  {
    CountNodes(q.validators, s) + CountSlices(q, |q.inner|, s) >= Needed(q.threshold)
  }

  /** How many of the first k inner sets s contains a slice of. */
  function CountSlices(q: QSet, k: nat, s: set<NodeID>): (n: nat)
    requires k <= |q.inner|
    ensures n <= k
    decreases q, k
  {
    if k == 0 then 0 else CountSlices(q, k - 1, s) + if Slice(q.inner[k - 1], s) then 1 else 0
  }

  /** The difference as a 32-bit int, for sets of less than 2^31 entries: far below zero it wraps around. */
  function ToInt(n: int): int {
    if n < -0x8000_0000 then n + 0x1_0000_0000 else n
  }

  /** The number of entries that block. */
  function Blocking(q: QSet): int {
    var left := ToInt(q.Size() + 1 - q.threshold);
    if left > 0 then left else 1
  }

  /** s is v-blocking. */
  predicate Blocked(q: QSet, s: set<NodeID>)
    decreases q, |q.inner| + 1
  {
    q.threshold != 0 && CountNodes(q.validators, s) + CountBlocked(q, |q.inner|, s) >= Blocking(q)
  }

  function CountBlocked(q: QSet, k: nat, s: set<NodeID>): (n: nat)
    requires k <= |q.inner|
    ensures n <= k
    decreases q, k
  {
    if k == 0 then 0 else CountBlocked(q, k - 1, s) + if Blocked(q.inner[k - 1], s) then 1 else 0
  }

  /** Every node named. */
  function NodeList(q: QSet): seq<NodeID>
    decreases q, |q.inner| + 1
  {
    q.validators + InnerNodes(q, |q.inner|)
  }

  function InnerNodes(q: QSet, k: nat): seq<NodeID>
    requires k <= |q.inner|
    decreases q, k
  {
    if k == 0 then [] else InnerNodes(q, k - 1) + NodeList(q.inner[k - 1])
  }

  /** Every threshold can be met and is at least one; with `extra`, every slice is more than half. */
  predicate InRange(q: QSet, extra: bool)
    decreases q
  {
    1 <= q.threshold <= q.Size() && (extra ==> q.threshold >= q.Size() - q.threshold + 1) &&
    forall k :: 0 <= k < |q.inner| ==> InRange(q.inner[k], extra)
  }

  // ---------- growing sets ----------

  lemma {:induction false} CountNodesGrows(vs: seq<NodeID>, s: set<NodeID>, t: set<NodeID>)
    requires forall i :: 0 <= i < |vs| && vs[i] in s ==> vs[i] in t
    ensures CountNodes(vs, s) <= CountNodes(vs, t)
  {
    if vs != [] { CountNodesGrows(vs[..|vs| - 1], s, t); }
  }

  lemma {:induction false} SliceGrows(q: QSet, s: set<NodeID>, t: set<NodeID>)
    requires Slice(q, s) && forall n :: n in NodeList(q) && n in s ==> n in t
    ensures Slice(q, t)
    decreases q, |q.inner| + 1
  {
    forall i | 0 <= i < |q.validators| && q.validators[i] in s ensures q.validators[i] in t {
      assert NodeList(q)[i] == q.validators[i];
    }
    CountNodesGrows(q.validators, s, t);
    CountSlicesGrows(q, |q.inner|, s, t);
  }

  lemma {:induction false} CountSlicesGrows(q: QSet, k: nat, s: set<NodeID>, t: set<NodeID>)
    requires k <= |q.inner| && forall n :: n in InnerNodes(q, k) && n in s ==> n in t
    ensures CountSlices(q, k, s) <= CountSlices(q, k, t)
    decreases q, k
  {
    if k > 0 {
      CountSlicesGrows(q, k - 1, s, t);
      if Slice(q.inner[k - 1], s) { SliceGrows(q.inner[k - 1], s, t); }
    }
  }

  lemma {:induction false} BlockedGrows(q: QSet, s: set<NodeID>, t: set<NodeID>)
    requires Blocked(q, s) && forall n :: n in NodeList(q) && n in s ==> n in t
    ensures Blocked(q, t)
    decreases q, |q.inner| + 1
  {
    forall i | 0 <= i < |q.validators| && q.validators[i] in s ensures q.validators[i] in t {
      assert NodeList(q)[i] == q.validators[i];
    }
    CountNodesGrows(q.validators, s, t);
    CountBlockedGrows(q, |q.inner|, s, t);
  }

  lemma {:induction false} CountBlockedGrows(q: QSet, k: nat, s: set<NodeID>, t: set<NodeID>)
    requires k <= |q.inner| && forall n :: n in InnerNodes(q, k) && n in s ==> n in t
    ensures CountBlocked(q, k, s) <= CountBlocked(q, k, t)
    decreases q, k
  {
    if k > 0 {
      CountBlockedGrows(q, k - 1, s, t);
      if Blocked(q.inner[k - 1], s) { BlockedGrows(q.inner[k - 1], s, t); }
    }
  }

  // ---------- blocking is missing every slice ----------

  /** Of the nodes named, each is in exactly one of the two. */
  ghost predicate Opposite(nodes: seq<NodeID>, s: set<NodeID>, t: set<NodeID>) {
    forall n :: n in nodes ==> (n in s <==> n !in t)
  }

  lemma {:induction false} NodesEitherWay(vs: seq<NodeID>, s: set<NodeID>, t: set<NodeID>)
    requires Opposite(vs, s, t)
    ensures CountNodes(vs, s) + CountNodes(vs, t) == |vs|
  {
    if vs != [] {
      assert vs[|vs| - 1] in vs;
      forall n | n in vs[..|vs| - 1] ensures n in vs { }
      NodesEitherWay(vs[..|vs| - 1], s, t);
    }
  }

  /** A set is v-blocking exactly when what is outside of it contains no slice. */
  lemma {:induction false} Duality(q: QSet, s: set<NodeID>, t: set<NodeID>)
    requires InRange(q, false) && Opposite(NodeList(q), s, t)
    ensures Blocked(q, s) <==> !Slice(q, t)
    decreases q, |q.inner| + 1
  {
    forall n | n in q.validators ensures n in NodeList(q) { }
    NodesEitherWay(q.validators, s, t);
    SetsEitherWay(q, |q.inner|, s, t);
  }

  lemma {:induction false} SetsEitherWay(q: QSet, k: nat, s: set<NodeID>, t: set<NodeID>)
    requires k <= |q.inner| && InRange(q, false) && Opposite(InnerNodes(q, k), s, t)
    ensures CountBlocked(q, k, s) + CountSlices(q, k, t) == k
    decreases q, k
  {
    if k > 0 {
      SetsEitherWay(q, k - 1, s, t);
      Duality(q.inner[k - 1], s, t);
    }
  }

  lemma {:induction false} CountNothing(vs: seq<NodeID>)
    ensures CountNodes(vs, {}) == 0
  {
    if vs != [] { CountNothing(vs[..|vs| - 1]); }
  }

  lemma {:induction false} NothingBlocks(q: QSet)
    ensures !Blocked(q, {})
    decreases q, |q.inner| + 1
  {
    CountNothing(q.validators);
    NoneBlocked(q, |q.inner|);
  }

  lemma {:induction false} NoneBlocked(q: QSet, k: nat)
    requires k <= |q.inner|
    ensures CountBlocked(q, k, {}) == 0
    decreases q, k
  {
    if k > 0 {
      NoneBlocked(q, k - 1);
      NothingBlocks(q.inner[k - 1]);
    }
  }

  lemma {:induction false} NothingSlices(q: QSet)
    ensures !Slice(q, {})
    decreases q, |q.inner| + 1
  {
    CountNothing(q.validators);
    NoneSliced(q, |q.inner|);
  }

  lemma {:induction false} NoneSliced(q: QSet, k: nat)
    requires k <= |q.inner|
    ensures CountSlices(q, k, {}) == 0
    decreases q, k
  {
    if k > 0 {
      NoneSliced(q, k - 1);
      NothingSlices(q.inner[k - 1]);
    }
  }

  /** With the extra check any two slices share a node. */
  lemma {:induction false} SlicesIntersect(q: QSet, s: set<NodeID>, t: set<NodeID>)
    requires InRange(q, true) && Slice(q, s) && Slice(q, t)
    ensures s * t != {}
    decreases q, |q.inner| + 1
  {
    if s * t == {} {
      CountApart(q.validators, s, t);
      CountSlicesApart(q, |q.inner|, s, t);
      assert false;
    }
  }

  lemma {:induction false} CountApart(vs: seq<NodeID>, s: set<NodeID>, t: set<NodeID>)
    requires s * t == {}
    ensures CountNodes(vs, s) + CountNodes(vs, t) <= |vs|
  {
    if vs != [] {
      CountApart(vs[..|vs| - 1], s, t);
      var n := vs[|vs| - 1];
      assert n !in s * t;
    }
  }

  lemma {:induction false} CountSlicesApart(q: QSet, k: nat, s: set<NodeID>, t: set<NodeID>)
    requires InRange(q, true) && s * t == {} && k <= |q.inner|
    ensures CountSlices(q, k, s) + CountSlices(q, k, t) <= k
    decreases q, k
  {
    if k > 0 {
      CountSlicesApart(q, k - 1, s, t);
      if Slice(q.inner[k - 1], s) && Slice(q.inner[k - 1], t) { SlicesIntersect(q.inner[k - 1], s, t); }
    }
  }

  // ---------- quorums ----------

  /** Every node of u has a slice in u. */
  ghost predicate IsQuorumOf(qsets: map<NodeID, QSet>, u: set<NodeID>) {
    forall n :: n in u ==> n in qsets && Slice(qsets[n], u)
  }

  /** Among these nodes there is a quorum with a slice of q. */
  ghost predicate HasQuorum(q: QSet, qsets: map<NodeID, QSet>, nodes: set<NodeID>) {
    exists u :: u <= nodes && IsQuorumOf(qsets, u) && Slice(q, u)
  }

  function Elements(s: seq<NodeID>): set<NodeID> {
    set n | n in s
  }

  // ---------- the tests of the source ----------

  lemma CountNodesSnoc(vs: seq<NodeID>, k: nat, s: set<NodeID>)
    requires k < |vs|
    ensures CountNodes(vs[..k + 1], s) == CountNodes(vs[..k], s) + if vs[k] in s then 1 else 0
  {
    assert vs[..k + 1][..k] == vs[..k];
  }

  lemma {:induction false} CountNodesPart(vs: seq<NodeID>, k: nat, s: set<NodeID>)
    requires k <= |vs|
    ensures CountNodes(vs[..k], s) <= CountNodes(vs, s)
    decreases |vs| - k
  {
    if k < |vs| {
      CountNodesSnoc(vs, k, s);
      CountNodesPart(vs, k + 1, s);
    } else {
      assert vs[..k] == vs;
    }
  }

  lemma {:induction false} CountSlicesPart(q: QSet, k: nat, n: nat, s: set<NodeID>)
    requires k <= n <= |q.inner|
    ensures CountSlices(q, k, s) <= CountSlices(q, n, s)
    decreases n
  {
    if k < n { CountSlicesPart(q, k, n - 1, s); }
  }

  lemma {:induction false} CountBlockedPart(q: QSet, k: nat, n: nat, s: set<NodeID>)
    requires k <= n <= |q.inner|
    ensures CountBlocked(q, k, s) <= CountBlocked(q, n, s)
    decreases n
  {
    if k < n { CountBlockedPart(q, k, n - 1, s); }
  }

  method IsQuorumSlice(q: QSet, nodeSet: seq<NodeID>) returns (ok: bool)
    ensures ok == Slice(q, Elements(nodeSet))
    decreases q
  {
    ghost var s := Elements(nodeSet);
    ghost var count := 0;
    var thresholdLeft: UInt32 := q.threshold;
    for i := 0 to |q.validators|
      invariant count == CountNodes(q.validators[..i], s) < Needed(q.threshold)
      invariant thresholdLeft == LeftOver(Needed(q.threshold) - count)
    {
      CountNodesSnoc(q.validators, i, s);
      if q.validators[i] in nodeSet {
        count := count + 1;
        thresholdLeft := if thresholdLeft == 0 then 0xFFFF_FFFF else thresholdLeft - 1;
        if thresholdLeft <= 0 {
          CountNodesPart(q.validators, i + 1, s);
          return true;
        }
      }
    }
    assert q.validators[..|q.validators|] == q.validators;
    for i := 0 to |q.inner|
      invariant count == CountNodes(q.validators, s) + CountSlices(q, i, s) < Needed(q.threshold)
      invariant thresholdLeft == LeftOver(Needed(q.threshold) - count)
    {
      var inside := IsQuorumSlice(q.inner[i], nodeSet);
      if inside {
        count := count + 1;
        thresholdLeft := if thresholdLeft == 0 then 0xFFFF_FFFF else thresholdLeft - 1;
        if thresholdLeft <= 0 {
          CountSlicesPart(q, i + 1, |q.inner|, s);
          return true;
        }
      }
    }
    ok := false;
  }

  method IsVBlocking(q: QSet, nodeSet: seq<NodeID>) returns (ok: bool)
    ensures ok == Blocked(q, Elements(nodeSet))
    decreases q
  {
    if q.threshold == 0 {
      return false;
    }
    ghost var s := Elements(nodeSet);
    var leftTillBlock: int := ToInt(1 + |q.validators| + |q.inner| - q.threshold);
    ghost var count := 0;
    for i := 0 to |q.validators|
      invariant count == CountNodes(q.validators[..i], s) < Blocking(q)
      invariant leftTillBlock == ToInt(1 + q.Size() - q.threshold) - count
    {
      CountNodesSnoc(q.validators, i, s);
      if q.validators[i] in nodeSet {
        count := count + 1;
        leftTillBlock := leftTillBlock - 1;
        if leftTillBlock <= 0 {
          CountNodesPart(q.validators, i + 1, s);
          return true;
        }
      }
    }
    assert q.validators[..|q.validators|] == q.validators;
    for i := 0 to |q.inner|
      invariant count == CountNodes(q.validators, s) + CountBlocked(q, i, s) < Blocking(q)
      invariant leftTillBlock == ToInt(1 + q.Size() - q.threshold) - count
    {
      var inside := IsVBlocking(q.inner[i], nodeSet);
      if inside {
        count := count + 1;
        leftTillBlock := leftTillBlock - 1;
        if leftTillBlock <= 0 {
          CountBlockedPart(q, i + 1, |q.inner|, s);
          return true;
        }
      }
    }
    ok := false;
  }

  /** One round of the search: the nodes that have a slice among the nodes. */
  method FilterBySlice(qsets: map<NodeID, QSet>, nodes: seq<NodeID>) returns (kept: seq<NodeID>)
    requires Elements(nodes) <= qsets.Keys
    ensures |kept| <= |nodes| && (|kept| == |nodes| ==> kept == nodes)
    ensures forall n :: n in kept <==> n in nodes && Slice(qsets[n], Elements(nodes))
  {
    kept := [];
    for i := 0 to |nodes|
      invariant |kept| <= i && (|kept| == i ==> kept == nodes[..i])
      invariant forall n :: n in kept <==> n in nodes[..i] && Slice(qsets[n], Elements(nodes))
    {
      assert nodes[i] in Elements(nodes);
      assert nodes[..i + 1] == nodes[..i] + [nodes[i]];
      var inside := IsQuorumSlice(qsets[nodes[i]], nodes);
      if inside {
        kept := kept + [nodes[i]];
      }
    }
    assert nodes[..|nodes|] == nodes;
  }

  /** The search for a quorum among the nodes whose statements pass: nodes without a slice are dropped until none is.
      What is left is the largest quorum, so the answer is whether there is any. */
  method SearchQuorum(q: QSet, qsets: map<NodeID, QSet>, passing: seq<NodeID>) returns (ok: bool, largest: seq<NodeID>)
    requires Elements(passing) <= qsets.Keys
    ensures Elements(largest) <= Elements(passing) && IsQuorumOf(qsets, Elements(largest))
    ensures forall u :: u <= Elements(passing) && IsQuorumOf(qsets, u) ==> u <= Elements(largest)
    ensures ok == HasQuorum(q, qsets, Elements(passing))
  {
    var pNodes := passing;
    while true
      invariant Elements(pNodes) <= Elements(passing)
      invariant forall u :: u <= Elements(passing) && IsQuorumOf(qsets, u) ==> u <= Elements(pNodes)
      decreases |pNodes|
    {
      var count := |pNodes|;
      var fNodes := FilterBySlice(qsets, pNodes);
      forall u | u <= Elements(passing) && IsQuorumOf(qsets, u) ensures u <= Elements(fNodes) {
        forall n | n in u ensures n in fNodes {
          assert n in Elements(pNodes);
          SliceGrows(qsets[n], u, Elements(pNodes));
        }
      }
      pNodes := fNodes;
      if count == |pNodes| {
        break;
      }
    }
    largest := pNodes;
    ok := IsQuorumSlice(q, pNodes);
    forall u | u <= Elements(passing) && IsQuorumOf(qsets, u) && Slice(q, u) ensures ok {
      SliceGrows(q, u, Elements(pNodes));
    }
    if ok {
      assert Elements(largest) <= Elements(passing) && IsQuorumOf(qsets, Elements(largest));
      assert Slice(q, Elements(largest));
    }
  }
}
