/** When well-behaved nodes can rely on each other: their quorums meet in a well-behaved node, and the others alone
    block none of them. Quorums are those of `LocalNode::isQuorum`, which does not ask whether the local node is a
    member. */
module Trust {
  import opened Quorum
  import opened QuorumSets

  /** `buildSingletonQSet`, which externalized nodes are taken to have. */
  function Singleton(n: NodeID): QSet {
    QSet(1, [n], [])
  }

  /** For node n, u is a quorum as far as well-behaved members go; the others may claim any quorum set. */
  ghost predicate QuorumFor(qsets: map<NodeID, QSet>, n: NodeID, u: set<NodeID>) {
    n in qsets && Slice(qsets[n], u) && forall m :: m in u && m in qsets ==> Slice(qsets[m], u)
  }

  /** Given the quorum sets of the well-behaved nodes. */
  ghost predicate Intertwined(qsets: map<NodeID, QSet>) {
    (forall x, y, u, v :: QuorumFor(qsets, x, u) && QuorumFor(qsets, y, v) ==>
        exists m :: m in u && m in v && m in qsets) &&
    (forall n, b: set<NodeID> :: n in qsets && Blocked(qsets[n], b) ==> exists m :: m in b && m in qsets)
  }

  lemma CommonMember(qsets: map<NodeID, QSet>, x: NodeID, y: NodeID, u: set<NodeID>, v: set<NodeID>) returns (m: NodeID)
    requires Intertwined(qsets) && QuorumFor(qsets, x, u) && QuorumFor(qsets, y, v)
    ensures m in u && m in v && m in qsets
  {
    m :| m in u && m in v && m in qsets;
  }

  /** A quorum that a well-behaved node relies on has a well-behaved member. */
  lemma GoodMember(qsets: map<NodeID, QSet>, n: NodeID, u: set<NodeID>) returns (m: NodeID)
    requires Intertwined(qsets) && n in qsets && Slice(qsets[n], u)
    ensures m in u && m in qsets
  {
    assert (forall m :: m in u ==> m !in qsets) ==> QuorumFor(qsets, n, u);
    m :| m in u && m in qsets;
  }

  /** A set that blocks a well-behaved node has a well-behaved member. */
  lemma BlockedByGood(qsets: map<NodeID, QSet>, n: NodeID, b: set<NodeID>) returns (m: NodeID)
    requires Intertwined(qsets) && n in qsets && Blocked(qsets[n], b)
    ensures m in b && m in qsets
  {
    m :| m in b && m in qsets;
  }

  /** Without misbehaviour, nodes that share one quorum set that passes the extra checks can rely on each other. */
  lemma CommonSetIntertwined(qsets: map<NodeID, QSet>, q: QSet)
    requires Sane(q, true) && (forall n :: n in NodeList(q) ==> n in qsets)
    requires (forall n :: n in qsets ==> qsets[n] == q)
    ensures Intertwined(qsets)
  {
    var named := Elements(NodeList(q));
    forall x, y, u, v | QuorumFor(qsets, x, u) && QuorumFor(qsets, y, v)
      ensures exists m :: m in u && m in v && m in qsets
    {
      OnlyNamed(q, u);
      OnlyNamed(q, v);
      var both: set<NodeID> := (u * named) * (v * named);
      SlicesIntersect(q, u * named, v * named);
      var m :| m in both;
      assert m in u && m in v && m in qsets;
    }
    forall n, b: set<NodeID> | n in qsets && Blocked(qsets[n], b) ensures exists m :: m in b && m in qsets {
      if forall m :: m in b ==> m !in NodeList(q) {
        var none: set<NodeID> := {};
        BlockedGrows(q, b, none);
        NothingBlocks(q);
        assert false;
      }
    }
  }

  /** Nodes not named make no difference to a slice. */
  lemma OnlyNamed(q: QSet, u: set<NodeID>)
    requires Slice(q, u)
    ensures Slice(q, u * Elements(NodeList(q)))
  {
    SliceGrows(q, u, u * Elements(NodeList(q)));
  }

  // ---------- one flat set, some of whose nodes misbehave ----------

  lemma {:induction false} CountUnion(vs: seq<NodeID>, a: set<NodeID>, b: set<NodeID>)
    requires a !! b
    ensures CountNodes(vs, a + b) == CountNodes(vs, a) + CountNodes(vs, b)
  {
    if vs != [] { CountUnion(vs[..|vs| - 1], a, b); }
  }

  /** Any number of the nodes of s can be chosen. */
  lemma {:induction false} Choose(vs: seq<NodeID>, s: set<NodeID>, k: nat) returns (c: set<NodeID>)
    requires Distinct(vs) && k <= CountNodes(vs, s)
    ensures c <= s && c <= Elements(vs) && CountNodes(vs, c) == k
    decreases |vs|
  {
    if vs == [] {
      c := {};
    } else {
      var ws, last := vs[..|vs| - 1], vs[|vs| - 1];
      DistinctPrefix(ws, vs);
      if k <= CountNodes(ws, s) {
        c := Choose(ws, s, k);
        assert forall i :: 0 <= i < |ws| ==> vs[i] != last;
      } else {
        c := Choose(ws, s, k - 1);
        assert forall i :: 0 <= i < |ws| ==> vs[i] != last;
        CountNodesGrows(ws, c, c + {last});
        CountNodesGrows(ws, c + {last}, c);
        c := c + {last};
        assert last in vs;
      }
    }
  }

  /** How many of the nodes are not well-behaved. */
  ghost function Faulty(qsets: map<NodeID, QSet>, vs: seq<NodeID>): nat {
    |vs| - CountNodes(vs, qsets.Keys)
  }

  lemma FlatMeans(q: QSet, s: set<NodeID>)
    requires q.inner == [] && 1 <= q.threshold <= |q.validators|
    ensures Slice(q, s) <==> CountNodes(q.validators, s) >= q.threshold
    ensures Blocked(q, s) <==> CountNodes(q.validators, s) > |q.validators| - q.threshold
  {
  }

  lemma FaultyCount(qsets: map<NodeID, QSet>, vs: seq<NodeID>)
    ensures CountNodes(vs, Elements(vs) - qsets.Keys) == Faulty(qsets, vs)
  {
    NodesEitherWay(vs, Elements(vs) - qsets.Keys, qsets.Keys);
  }

  lemma EnoughOverlap(qsets: map<NodeID, QSet>, vs: seq<NodeID>, u: set<NodeID>, v: set<NodeID>)
    requires CountNodes(vs, u) + CountNodes(vs, v) > |vs| + Faulty(qsets, vs)
    ensures exists m :: m in u && m in v && m in qsets
  {
    if forall m :: m in u && m in v ==> m !in qsets {
      var bad := Elements(vs) - qsets.Keys;
      FaultyCount(qsets, vs);
      CountUnion(vs, u - bad, bad);
      CountNodesGrows(vs, u, (u - bad) + bad);
      CountApart(vs, u - bad, v);
    }
  }

  lemma TooLittleOverlap(qsets: map<NodeID, QSet>, vs: seq<NodeID>, t: nat) returns (u: set<NodeID>, v: set<NodeID>)
    requires Distinct(vs) && t <= |vs| && 2 * t <= |vs| + Faulty(qsets, vs)
    ensures CountNodes(vs, u) >= t && CountNodes(vs, v) >= t && forall m :: m in u && m in v ==> m !in qsets
  {
    var bad := Elements(vs) - qsets.Keys;
    FaultyCount(qsets, vs);
    var k := if t <= Faulty(qsets, vs) then 0 else t - Faulty(qsets, vs);
    var a := Choose(vs, qsets.Keys, k);
    CountUnion(vs, a, qsets.Keys - a);
    assert a + (qsets.Keys - a) == qsets.Keys;
    var b := Choose(vs, qsets.Keys - a, k);
    CountUnion(vs, bad, a);
    CountUnion(vs, bad, b);
    u, v := bad + a, bad + b;
  }

  /** Nodes that share one flat set can rely on each other exactly when any two slices overlap in more nodes than
      misbehave, and those that misbehave are too few to block. */
  lemma FlatIntertwined(qsets: map<NodeID, QSet>, q: QSet)
    requires q.inner == [] && Sane(q, false) && qsets != map[] && forall n :: n in qsets ==> qsets[n] == q
    ensures var f := Faulty(qsets, q.validators);
            Intertwined(qsets) <==> 2 * q.threshold > q.Size() + f && q.threshold + f <= q.Size()
  {
    var vs, f := q.validators, Faulty(qsets, q.validators);
    assert NodeList(q) == vs;
    if 2 * q.threshold > q.Size() + f && q.threshold + f <= q.Size() {
      forall x, y, u, v | QuorumFor(qsets, x, u) && QuorumFor(qsets, y, v)
        ensures exists m :: m in u && m in v && m in qsets
      {
        FlatMeans(q, u);
        FlatMeans(q, v);
        EnoughOverlap(qsets, vs, u, v);
      }
      forall n, b: set<NodeID> | n in qsets && Blocked(qsets[n], b) ensures exists m :: m in b && m in qsets {
        FlatMeans(q, b);
        if forall m :: m in b ==> m !in qsets {
          FaultyCount(qsets, vs);
          CountNodesGrows(vs, b, Elements(vs) - qsets.Keys);
        }
      }
    } else {
      var n :| n in qsets;
      if q.threshold + f > q.Size() {
        var bad := Elements(vs) - qsets.Keys;
        FaultyCount(qsets, vs);
        FlatMeans(q, bad);
        assert Blocked(qsets[n], bad) && !exists m :: m in bad && m in qsets;
      } else {
        var u, v := TooLittleOverlap(qsets, vs, q.threshold);
        FlatMeans(q, u);
        FlatMeans(q, v);
        assert QuorumFor(qsets, n, u) && QuorumFor(qsets, n, v) && !exists m :: m in u && m in v && m in qsets;
      }
    }
  }

  /** Of 3f + 1 nodes that each ask for 2f + 1, exactly up to f may misbehave. */
  lemma ThirdFaulty(qsets: map<NodeID, QSet>, q: QSet, f: nat)
    requires q.inner == [] && Distinct(q.validators) && |q.validators| == 3 * f + 1 && q.threshold == 2 * f + 1
    requires qsets != map[] && forall n :: n in qsets ==> qsets[n] == q
    ensures Intertwined(qsets) <==> Faulty(qsets, q.validators) <= f
  {
    assert NodeList(q) == q.validators;
    FlatIntertwined(qsets, q);
  }
}
