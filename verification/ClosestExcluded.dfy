/** What `findClosestVBlocking` of src/scp/LocalNode.cpp returns when it is told to leave out a node that the set names,
    as `dumpQuorumInfo` of src/scp/BallotProtocol.cpp does: exactly when the result blocks. */
module ClosestExcluded {
  import opened Quorum
  import opened QuorumSets
  import opened QuorumDuality
  import opened QuorumClosest
  import opened ClosestSearch

  // ---------- no node left out ----------

  lemma {:induction false} SparesAll(q: QSet, net: Net)
    requires InRange(q, false) && net.up == net.use
    ensures Spares(q, net)
    decreases q
  {
    assert net.up - net.use == {};
    CountNothing(q.validators);
    forall k | 0 <= k < |q.inner| ensures Spares(q.inner[k], net) { SparesAll(q.inner[k], net); }
  }

  lemma {:induction false} DistinctCount(s: seq<NodeID>, r: set<NodeID>)
    requires Distinct(s)
    ensures CountNodes(s, r) <= |r|
  {
    if s != [] {
      var p, n := s[..|s| - 1], s[|s| - 1];
      DistinctPrefix(p, s);
      DistinctCount(p, r - {n});
      CountWithout(p, r, n);
    }
  }

  lemma {:induction false} CountWithout(s: seq<NodeID>, r: set<NodeID>, n: NodeID)
    requires n !in s
    ensures CountNodes(s, r - {n}) == CountNodes(s, r)
  {
    if s != [] {
      assert s[|s| - 1] in s;
      CountWithout(s[..|s| - 1], r, n);
    }
  }

  /** The nodes named that are not among these, and r. */
  function Outside(q: QSet, nodes: set<NodeID>, r: set<NodeID>): set<NodeID> {
    Elements(NodeList(q)) - nodes + r
  }

  /** For a sane set: a blocking set of the least size. */
  method ClosestVBlocking(q: QSet, nodes: set<NodeID>) returns (res: seq<NodeID>)
    requires Sane(q, false)
    ensures Within(res, nodes) && Blocked(q, Outside(q, nodes, Elements(res)))
    ensures forall r: set<NodeID> :: Blocked(q, Outside(q, nodes, r)) ==> |res| <= |r|
  {
    res := FindClosest(q, nodes, None);
    ghost var net := Net(Elements(NodeList(q)), nodes, nodes);
    SparesAll(q, net);
    ClosestIsLeast(q, net);
    forall r: set<NodeID> | Blocked(q, Outside(q, nodes, r)) ensures |res| <= |r| {
      assert Base(net, r) == Outside(q, nodes, r);
      DistinctCount(NodeList(q), r);
    }
    assert Base(net, Elements(res)) == Outside(q, nodes, Elements(res));
  }

  // ---------- a node left out ----------

  /** Every set within q that names e itself has a threshold of at least two. */
  predicate NeverDecides(q: QSet, e: NodeID)
    decreases q
  {
    (e in q.validators ==> q.threshold >= 2) && forall k :: 0 <= k < |q.inner| ==> NeverDecides(q.inner[k], e)
  }

  lemma {:induction false} InnerSane(q: QSet, k: nat)
    requires Sane(q, false) && k < |q.inner|
    ensures Sane(q.inner[k], false)
  {
    InnerDistinct(q, k);
  }

  lemma {:induction false} SparesOne(q: QSet, net: Net, e: NodeID)
    requires Sane(q, false) && NeverDecides(q, e) && net.up - net.use == {e}
    ensures Spares(q, net)
    decreases q
  {
    assert q.validators <= NodeList(q);
    DistinctPrefix(q.validators, NodeList(q));
    DistinctCount(q.validators, {e});
    if e !in q.validators {
      CountWithout(q.validators, {e}, e);
      assert {e} - {e} == {};
      CountNothing(q.validators);
    }
    forall k | 0 <= k < |q.inner| ensures Spares(q.inner[k], net) {
      InnerSane(q, k);
      SparesOne(q.inner[k], net, e);
    }
  }

  /** What the search returns when it leaves out e. */
  function ClosestWithout(q: QSet, nodes: set<NodeID>, e: NodeID): seq<NodeID> {
    Closest(q, nodes + {e}, nodes - {e})
  }

  /** If no set within depends on e alone, the nodes returned are among those given, without e, and block together with
      the nodes outside. None of the sets without e that block while e is up is smaller. */
  lemma LeastWithout(q: QSet, nodes: set<NodeID>, e: NodeID)
    requires Sane(q, false) && NeverDecides(q, e)
    ensures Within(ClosestWithout(q, nodes, e), nodes - {e})
    ensures Blocked(q, Outside(q, nodes + {e}, Elements(ClosestWithout(q, nodes, e))))
    ensures Blocked(q, Outside(q, nodes, Elements(ClosestWithout(q, nodes, e))))
    ensures forall r: set<NodeID> :: e !in r && Blocked(q, Outside(q, nodes + {e}, r)) ==>
        |ClosestWithout(q, nodes, e)| <= |r|
  {
    var net := Net(Elements(NodeList(q)), nodes + {e}, nodes - {e});
    assert net.up - net.use == {e};
    SparesOne(q, net, e);
    ClosestIsLeast(q, net);
    var res := ClosestWithout(q, nodes, e);
    assert Base(net, Elements(res)) == Outside(q, nodes + {e}, Elements(res));
    BlockedGrows(q, Outside(q, nodes + {e}, Elements(res)), Outside(q, nodes, Elements(res)));
    forall r: set<NodeID> | e !in r && Blocked(q, Outside(q, nodes + {e}, r)) ensures |res| <= |r| {
      assert Base(net, r) == Outside(q, nodes + {e}, r);
      DistinctCount(NodeList(q), r);
    }
  }

  // ---------- where the result comes from ----------

  lemma {:induction false} PickedWithin(vs: seq<NodeID>, use: set<NodeID>)
    ensures forall n :: n in Picked(vs, use) ==> n in vs && n in use
  {
    if vs != [] { PickedWithin(vs[..|vs| - 1], use); }
  }

  /** All of them consist of such nodes. */
  ghost predicate AllWithin(ls: seq<seq<NodeID>>, use: set<NodeID>) {
    forall j :: 0 <= j < |ls| ==> Within(ls[j], use)
  }

  lemma {:induction false} InsertWithin(ls: seq<seq<NodeID>>, v: seq<NodeID>, use: set<NodeID>)
    requires AllWithin(ls, use) && Within(v, use)
    ensures AllWithin(InsertBySize(ls, v), use)
  {
    if ls != [] && |ls[|ls| - 1]| > |v| { InsertWithin(ls[..|ls| - 1], v, use); }
  }

  lemma {:induction false} InternalsWithin(q: QSet, k: nat, up: set<NodeID>, use: set<NodeID>)
    requires k <= |q.inner|
    ensures AllWithin(Internals(q, k, up, use), use * Elements(NodeList(q)))
    decreases q, k
  {
    if k > 0 {
      InternalsWithin(q, k - 1, up, use);
      ClosestWithin(q.inner[k - 1], up, use);
      InnerNamed(q, k - 1);
      InsertWithin(Internals(q, k - 1, up, use), Closest(q.inner[k - 1], up, use), use * Elements(NodeList(q)));
    }
  }

  /** Nodes that the set names and that may be taken. */
  lemma {:induction false} ClosestWithin(q: QSet, up: set<NodeID>, use: set<NodeID>)
    ensures Within(Closest(q, up, use), use * Elements(NodeList(q)))
    decreases q, |q.inner| + 1
  {
    var picked, ls, left := Picked(q.validators, use), Internals(q, |q.inner|, up, use), Remaining(q, up, use);
    PickedWithin(q.validators, use);
    InternalsWithin(q, |q.inner|, up, use);
    forall n | n in q.validators ensures n in NodeList(q) { }
    if left > |picked| {
      var c := if left - |picked| <= |ls| then left - |picked| else |ls|;
      assert AllWithin(ls[..c], use * Elements(NodeList(q)));
      JoinWithin(ls[..c], use * Elements(NodeList(q)));
    }
  }

  lemma NothingUsable(q: QSet, up: set<NodeID>, use: set<NodeID>)
    requires forall n :: n in NodeList(q) ==> n !in use
    ensures Closest(q, up, use) == []
  {
    ClosestWithin(q, up, use);
    var res := Closest(q, up, use);
    if res != [] { assert res[0] in use * Elements(NodeList(q)); }
  }

  /** Of the nodes named, the same are up and may be taken. */
  ghost predicate Alike(names: seq<NodeID>, up: set<NodeID>, use: set<NodeID>, up': set<NodeID>, use': set<NodeID>) {
    forall n :: n in names ==> (n in up <==> n in up') && (n in use <==> n in use')
  }

  lemma {:induction false} PickedAlike(vs: seq<NodeID>, use: set<NodeID>, use': set<NodeID>)
    requires forall n :: n in vs ==> (n in use <==> n in use')
    ensures Picked(vs, use) == Picked(vs, use')
  {
    if vs != [] {
      assert vs[|vs| - 1] in vs;
      PickedAlike(vs[..|vs| - 1], use, use');
    }
  }

  lemma {:induction false} InternalsAlike(q: QSet, k: nat, up: set<NodeID>, use: set<NodeID>, up': set<NodeID>,
                                          use': set<NodeID>)
    requires k <= |q.inner| && Alike(NodeList(q), up, use, up', use')
    ensures Internals(q, k, up, use) == Internals(q, k, up', use')
    decreases q, k
  {
    if k > 0 {
      InternalsAlike(q, k - 1, up, use, up', use');
      InnerNamed(q, k - 1);
      ClosestAlike(q.inner[k - 1], up, use, up', use');
    }
  }

  lemma SameParts(q: QSet, up: set<NodeID>, use: set<NodeID>, up': set<NodeID>, use': set<NodeID>)
    requires Picked(q.validators, use) == Picked(q.validators, use')
    requires CountNodes(q.validators, up) == CountNodes(q.validators, up')
    requires Internals(q, |q.inner|, up, use) == Internals(q, |q.inner|, up', use')
    ensures Closest(q, up, use) == Closest(q, up', use')
  {
  }

  /** Only nodes that are named make a difference. */
  lemma {:induction false} ClosestAlike(q: QSet, up: set<NodeID>, use: set<NodeID>, up': set<NodeID>, use': set<NodeID>)
    requires Alike(NodeList(q), up, use, up', use')
    ensures Closest(q, up, use) == Closest(q, up', use')
    decreases q, |q.inner| + 1
  {
    forall n | n in q.validators ensures n in NodeList(q) { }
    PickedAlike(q.validators, use, use');
    CountNodesGrows(q.validators, up, up');
    CountNodesGrows(q.validators, up', up);
    InternalsAlike(q, |q.inner|, up, use, up', use');
    SameParts(q, up, use, up', use');
  }

  // ---------- when it does not block ----------

  lemma {:induction false} CountHas(vs: seq<NodeID>, s: set<NodeID>, n: NodeID)
    requires n in vs && n in s
    ensures CountNodes(vs, s) >= 1
  {
    if vs[|vs| - 1] != n { CountHas(vs[..|vs| - 1], s, n); }
  }

  lemma {:induction false} CountAll(vs: seq<NodeID>, s: set<NodeID>)
    requires forall n :: n in vs ==> n in s
    ensures CountNodes(vs, s) == |vs|
  {
    if vs != [] {
      assert vs[|vs| - 1] in vs;
      CountAll(vs[..|vs| - 1], s);
    }
  }

  /** All nodes named are a slice. */
  lemma {:induction false} AllIsSlice(q: QSet, s: set<NodeID>)
    requires InRange(q, false) && forall n :: n in NodeList(q) ==> n in s
    ensures Slice(q, s)
    decreases q, |q.inner| + 1
  {
    forall n | n in q.validators ensures n in s { assert n in NodeList(q); }
    CountAll(q.validators, s);
    AllAreSlices(q, |q.inner|, s);
  }

  lemma {:induction false} AllAreSlices(q: QSet, k: nat, s: set<NodeID>)
    requires InRange(q, false) && k <= |q.inner| && forall n :: n in NodeList(q) ==> n in s
    ensures CountSlices(q, k, s) == k
    decreases q, k
  {
    if k > 0 {
      AllAreSlices(q, k - 1, s);
      InnerNamed(q, k - 1);
      AllIsSlice(q.inner[k - 1], s);
    }
  }

  /** The nodes of inner sets and the validators are all different. */
  lemma Apart(q: QSet, i: nat)
    requires Distinct(NodeList(q)) && i < |q.inner|
    ensures forall n :: n in NodeList(q.inner[i]) ==> n !in q.validators
    ensures forall j, n :: 0 <= j < |q.inner| && j != i && n in NodeList(q.inner[i]) ==> n !in NodeList(q.inner[j])
  {
    DistinctAppend(q.validators, InnerNodes(q, |q.inner|));
    InnerWithin(q, i, |q.inner|);
    forall j, n | 0 <= j < |q.inner| && j != i && n in NodeList(q.inner[i]) ensures n !in NodeList(q.inner[j]) {
      if j < i {
        InnerDistinct(q, i);
        InnerWithin(q, j, i);
      } else {
        InnerDistinct(q, j);
        InnerWithin(q, i, j);
      }
    }
  }

  /** The first c inner sets, not counting the one with index k. */
  predicate Early(i: nat, k: nat, c: nat) {
    i != k && Others(i, k) < c
  }

  ghost function EarlyNodes(q: QSet, k: nat, c: nat): set<NodeID> {
    set n | n in NodeList(q) && exists i :: 0 <= i < |q.inner| && Early(i, k, c) && n in NodeList(q.inner[i])
  }

  /** Of the inner sets, the nodes have all of the first c, none of the rest, and of the one with index k what the trap
      for it has. */
  ghost predicate Springs(q: QSet, k: nat, c: nat, e: NodeID, nodes: set<NodeID>) {
    k < |q.inner| && InRange(q, false) &&
    (forall i, n :: 0 <= i < |q.inner| && Early(i, k, c) && n in NodeList(q.inner[i]) ==> n in nodes) &&
    (forall i, n :: 0 <= i < |q.inner| && i != k && !Early(i, k, c) && n in NodeList(q.inner[i]) ==> n !in nodes) &&
    Slice(q.inner[k], nodes) && Closest(q.inner[k], nodes, nodes - {e}) == []
  }

  lemma {:induction false} SpringsCount(q: QSet, j: nat, k: nat, c: nat, e: NodeID, nodes: set<NodeID>)
    requires Springs(q, k, c, e, nodes) && j <= |q.inner|
    ensures var early := if Others(j, k) <= c then Others(j, k) else c;
            CountSlices(q, j, nodes) >= early + (if k < j then 1 else 0) &&
            |Internals(q, j, nodes, nodes - {e})| <= early
    decreases j
  {
    if j > 0 {
      SpringsCount(q, j - 1, k, c, e, nodes);
      var p := q.inner[j - 1];
      InsertSize(Internals(q, j - 1, nodes, nodes - {e}), Closest(p, nodes, nodes - {e}));
      if j - 1 != k {
        if Early(j - 1, k, c) {
          AllIsSlice(p, nodes);
        } else {
          NothingUsable(p, nodes, nodes - {e});
        }
      }
    }
  }

  /** Nodes for which the search takes e's set for blocked, and with it the whole set, while they contain a slice. */
  lemma {:induction false} FindTrap(q: QSet, e: NodeID) returns (nodes: set<NodeID>)
    requires Sane(q, false) && !NeverDecides(q, e)
    ensures e in nodes && nodes <= Elements(NodeList(q)) && Slice(q, nodes) && Closest(q, nodes, nodes - {e}) == []
    decreases q
  {
    if e in q.validators && q.threshold < 2 {
      nodes := {e};
      assert e in NodeList(q);
      CountHas(q.validators, nodes, e);
      NothingUsable(q, nodes, nodes - {e});
    } else {
      var k :| 0 <= k < |q.inner| && !NeverDecides(q.inner[k], e);
      InnerSane(q, k);
      var trap := FindTrap(q.inner[k], e);
      nodes := WidenTrap(q, k, e, trap);
    }
  }

  lemma TrapSprings(q: QSet, k: nat, c: nat, a: nat, e: NodeID, trap: set<NodeID>)
    requires Sane(q, false) && k < |q.inner| && a <= |q.validators|
    requires e in trap && trap <= Elements(NodeList(q.inner[k])) && Slice(q.inner[k], trap)
    requires Closest(q.inner[k], trap, trap - {e}) == []
    ensures Springs(q, k, c, e, trap + EarlyNodes(q, k, c) + Elements(q.validators[..a]))
  {
    var nodes := trap + EarlyNodes(q, k, c) + Elements(q.validators[..a]);
    forall i, n | 0 <= i < |q.inner| && Early(i, k, c) && n in NodeList(q.inner[i])
      ensures n in nodes
    {
      InnerNamed(q, i);
    }
    forall i, n | 0 <= i < |q.inner| && i != k && !Early(i, k, c) && n in NodeList(q.inner[i]) ensures n !in nodes {
      Apart(q, i);
    }
    Apart(q, k);
    forall n | n in NodeList(q.inner[k]) ensures n in nodes <==> n in trap { }
    SliceGrows(q.inner[k], trap, nodes);
    ClosestAlike(q.inner[k], trap, trap - {e}, nodes, nodes - {e});
  }

  /** A trap for an inner set becomes one for the whole set if the threshold less one of the other entries are up. */
  lemma WidenTrap(q: QSet, k: nat, e: NodeID, trap: set<NodeID>) returns (nodes: set<NodeID>)
    requires Sane(q, false) && k < |q.inner|
    requires e in trap && trap <= Elements(NodeList(q.inner[k])) && Slice(q.inner[k], trap)
    requires Closest(q.inner[k], trap, trap - {e}) == []
    ensures e in nodes && nodes <= Elements(NodeList(q)) && Slice(q, nodes) && Closest(q, nodes, nodes - {e}) == []
  {
    var vs := q.validators;
    var a := if q.threshold - 1 <= |vs| then q.threshold - 1 else |vs|;
    var c := q.threshold - 1 - a;
    nodes := trap + EarlyNodes(q, k, c) + Elements(vs[..a]);
    TrapSprings(q, k, c, a, e, trap);
    SpringsCount(q, |q.inner|, k, c, e, nodes);
    ValidatorsUp(q, k, c, a, trap);
    InnerNamed(q, k);
    forall n | n in Elements(vs[..a]) ensures n in NodeList(q) { assert n in vs; }
  }

  lemma ValidatorsUp(q: QSet, k: nat, c: nat, a: nat, trap: set<NodeID>)
    requires Sane(q, false) && k < |q.inner| && a <= |q.validators| && trap <= Elements(NodeList(q.inner[k]))
    ensures CountNodes(q.validators, trap + EarlyNodes(q, k, c) + Elements(q.validators[..a])) == a
  {
    var vs := q.validators;
    var nodes := trap + EarlyNodes(q, k, c) + Elements(vs[..a]);
    assert vs <= NodeList(q);
    DistinctPrefix(vs, NodeList(q));
    CountFirst(vs, a);
    Apart(q, k);
    forall i | 0 <= i < |vs| && vs[i] in nodes ensures vs[i] in Elements(vs[..a]) {
      if vs[i] in EarlyNodes(q, k, c) {
        var j :| 0 <= j < |q.inner| && Early(j, k, c) && vs[i] in NodeList(q.inner[j]);
        Apart(q, j);
      }
    }
    CountNodesGrows(vs, nodes, Elements(vs[..a]));
    CountNodesGrows(vs, Elements(vs[..a]), nodes);
  }

  /** The result blocks, together with the nodes outside, whatever nodes are given. */
  ghost predicate AlwaysBlocks(q: QSet, e: NodeID) {
    forall nodes: set<NodeID> :: Blocked(q, Outside(q, nodes, Elements(ClosestWithout(q, nodes, e))))
  }

  /** For a sane set, leaving out e the search returns nodes that block for all nodes given exactly when every set
      within that names e itself has a threshold of at least two. */
  lemma BlocksWithoutExactly(q: QSet, e: NodeID)
    requires Sane(q, false)
    ensures AlwaysBlocks(q, e) <==> NeverDecides(q, e)
  {
    if NeverDecides(q, e) {
      forall nodes: set<NodeID>
        ensures Blocked(q, Outside(q, nodes, Elements(ClosestWithout(q, nodes, e))))
      {
        LeastWithout(q, nodes, e);
      }
    } else {
      var nodes := FindTrap(q, e);
      assert nodes + {e} == nodes;
      var none: set<NodeID> := Elements([]);
      assert Opposite(NodeList(q), Outside(q, nodes, none), nodes);
      Duality(q, Outside(q, nodes, none), nodes);
      assert !Blocked(q, Outside(q, nodes, Elements(ClosestWithout(q, nodes, e))));
    }
  }

  /** Two entries, one of them a choice between e and f. */
  function EitherOf(a: NodeID, e: NodeID, f: NodeID): QSet {
    QSet(2, [a], [QSet(1, [e, f], [])])
  }

  lemma OfEither(a: NodeID, e: NodeID, f: NodeID, s: set<NodeID>)
    ensures Slice(EitherOf(a, e, f), s) <==> a in s && (e in s || f in s)
    ensures Blocked(EitherOf(a, e, f), s) <==> a in s || (e in s && f in s)
  {
    var q := EitherOf(a, e, f);
    var p := q.inner[0];
    CountNodesSnoc(p.validators, 0, s);
    CountNodesSnoc(p.validators, 1, s);
    assert p.validators[..2] == p.validators && p.validators[..0] == [];
    CountNodesSnoc(q.validators, 0, s);
    assert q.validators[..1] == q.validators && q.validators[..0] == [];
    assert Slice(p, s) <==> e in s || f in s;
    assert Blocked(p, s) <==> e in s && f in s;
    assert CountSlices(q, 1, s) == CountSlices(q, 0, s) + if Slice(p, s) then 1 else 0;
    assert CountBlocked(q, 1, s) == CountBlocked(q, 0, s) + if Blocked(p, s) then 1 else 0;
  }

  /** With a and e up, which are a slice, the search without e returns nothing as if the set were blocked, although a
      alone would block it. */
  method MissSlice(a: NodeID, e: NodeID, f: NodeID) returns (res: seq<NodeID>)
    requires a != e && a != f && e != f
    ensures var q := EitherOf(a, e, f);
            Sane(q, false) && res == ClosestWithout(q, {a, e}, e) == [] && Slice(q, {a, e}) &&
            !Blocked(q, Outside(q, {a, e}, {})) &&
            Blocked(q, Outside(q, {a, e}, {a}))
  {
    var q := EitherOf(a, e, f);
    assert NodeList(q.inner[0]) == [e, f];
    assert InnerNodes(q, 1) == InnerNodes(q, 0) + NodeList(q.inner[0]);
    assert NodeList(q) == [a, e, f];
    res := FindClosest(q, {a, e}, Some(e));
    OfEither(a, e, f, {a, e});
    OfEither(a, e, f, Outside(q, {a, e}, {}));
    OfEither(a, e, f, Outside(q, {a, e}, {a}));
    EitherMissed(a, e, f);
  }

  lemma EitherMissed(a: NodeID, e: NodeID, f: NodeID)
    requires a != e && a != f && e != f
    ensures ClosestWithout(EitherOf(a, e, f), {a, e}, e) == []
  {
    var q := EitherOf(a, e, f);
    var up, use := {a, e} + {e}, {a, e} - {e};
    NothingUsable(q.inner[0], up, use);
    assert Internals(q, 1, up, use) == Internals(q, 0, up, use) == [];
    CountNodesSnoc(q.validators, 0, up);
    assert q.validators[..1] == q.validators && q.validators[..0] == [];
    assert Remaining(q, up, use) == 0;
  }
}
