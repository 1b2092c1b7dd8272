/** Agreement on what is externalized by src/scp/BallotProtocol.cpp, whether or not its assertions are compiled in. */
module BallotExternalize {
  import opened Quorum
  import opened Trust
  import opened Ballot
  import opened BallotSafety

  /** Once a node has accepted a commit its ballots have one value, and it has never said it accepted another. */
  ghost predicate Settled(w: Peer) {
    Speaks(w.node) && StatementOf(w.node) in w.hist &&
    (w.node.phase == PreparePhase ==> forall st :: st in w.hist ==> st.Prepare?) &&
    (w.node.phase != PreparePhase ==>
        w.node.c.value.x == w.node.h.value.x && (w.node.b.Some? ==> w.node.b.value.x == w.node.c.value.x)) &&
    (w.node.phase != PreparePhase ==> forall v :: SaidCommitted(w.hist, v) ==> v == w.node.c.value.x)
  }

  /** What every run keeps. */
  ghost predicate Bound(qsets: map<NodeID, QSet>, s: State) {
    s.Keys == qsets.Keys && (forall m :: m in s ==> Settled(s[m])) && Backing(qsets, s)
  }

  /** A step leaves a commit accepted earlier its value. */
  lemma ValueStays(q: QSet, s: Node, step: Step)
    requires Guard(q, s, step) && Speaks(s) && Speaks(After(s, step))
    requires s.phase != PreparePhase ==> s.c.value.x == s.h.value.x && (s.b.Some? ==> s.b.value.x == s.c.value.x)
    ensures var t := After(s, step);
            (t.phase == PreparePhase ==> s.phase == PreparePhase) &&
            (t.phase != PreparePhase ==> t.c.value.x == t.h.value.x && (t.b.Some? ==> t.b.value.x == t.c.value.x)) &&
            (s.phase != PreparePhase ==> t.c.value.x == s.c.value.x)
  {
  }

  lemma StepSettled(q: QSet, w: Peer, step: Step)
    requires Guard(q, w.node, step) && Settled(w) && Speaks(After(w.node, step))
    ensures Settled(Peer(After(w.node, step), w.hist + {StatementOf(After(w.node, step))}))
  {
    ValueStays(q, w.node, step);
    var node := After(w.node, step);
    var now := w.hist + {StatementOf(node)};
    forall v | SaidCommitted(now, v) && node.phase != PreparePhase ensures v == node.c.value.x {
      var st :| st in now && Committed(v, st);
      if st in w.hist { assert SaidCommitted(w.hist, v); }
    }
  }

  /** What a quorum has accepted it has accepted for good. */
  lemma AgreedGrows(qsets: map<NodeID, QSet>, s: State, t: State, v: Value)
    requires s.Keys <= t.Keys && (forall m :: m in s ==> s[m].hist <= t[m].hist) && Agreed(qsets, s, v)
    ensures Agreed(qsets, t, v)
  {
    var n, u :| QuorumFor(qsets, n, u) && AllCommitted(qsets, s, u, v);
    assert AllCommitted(qsets, t, u, v);
  }

  lemma BackingKept(qsets: map<NodeID, QSet>, s: State, step: Step)
    requires Backing(qsets, s) && Enabled(qsets, s, step)
    ensures Backing(qsets, Next(s, step))
  {
    var t := Next(s, step);
    if step.ConfirmCommit? { RatifiedIsAgreed(qsets, s, step.n, step.envs, step.v, step.lo, step.hi); }
    forall m, st | m in t && st in t[m].hist && st.Externalize? ensures Agreed(qsets, t, st.commit.x) {
      if st !in s[m].hist { NewlyExternalized(s[step.n].node, step, st); }
      AgreedGrows(qsets, s, t, st.commit.x);
    }
  }

  /** Only confirming a commit externalizes it. */
  lemma NewlyExternalized(s: Node, step: Step, st: Statement)
    requires Speaks(After(s, step)) && st == StatementOf(After(s, step)) && st.Externalize?
    requires s.phase != ExternalizePhase
    ensures step.ConfirmCommit? && st.commit.x == step.v
  {
  }

  lemma BoundKept(qsets: map<NodeID, QSet>, s: State, step: Step)
    requires Bound(qsets, s) && Enabled(qsets, s, step)
    ensures Bound(qsets, Next(s, step))
  {
    StepSettled(qsets[step.n], s[step.n], step);
    BackingKept(qsets, s, step);
  }

  lemma {:induction false} BoundReached(qsets: map<NodeID, QSet>, states: seq<State>, steps: seq<Step>, i: nat)
    requires IsRun(qsets, states, steps) && i < |states|
    ensures Bound(qsets, states[i])
    decreases i
  {
    if i > 0 {
      BoundReached(qsets, states, steps, i - 1);
      assert Enabled(qsets, states[i - 1], steps[i - 1]) && states[i - 1 + 1] == Next(states[i - 1], steps[i - 1]);
      BoundKept(qsets, states[i - 1], steps[i - 1]);
    }
  }

  lemma AgreedMeet(qsets: map<NodeID, QSet>, s: State, v: Value, u: Value) returns (m: NodeID)
    requires Intertwined(qsets) && Agreed(qsets, s, v) && Agreed(qsets, s, u)
    ensures m in s && SaidCommitted(s[m].hist, v) && SaidCommitted(s[m].hist, u)
  {
    var n, a :| QuorumFor(qsets, n, a) && AllCommitted(qsets, s, a, v);
    var k, b :| QuorumFor(qsets, k, b) && AllCommitted(qsets, s, b, u);
    m := CommonMember(qsets, n, k, a, b);
  }

  lemma SettledOnce(w: Peer, v: Value, u: Value)
    requires Settled(w) && SaidCommitted(w.hist, v) && SaidCommitted(w.hist, u)
    ensures v == u
  {
  }

  /** Two values that quorums have accepted are one. */
  lemma AgreedOnce(qsets: map<NodeID, QSet>, s: State, v: Value, u: Value)
    requires Intertwined(qsets) && Bound(qsets, s) && Agreed(qsets, s, v) && Agreed(qsets, s, u)
    ensures v == u
  {
    var m := AgreedMeet(qsets, s, v, u);
    SettledOnce(s[m], v, u);
  }

  /** A value externalized at one time has a quorum behind it at every later time. */
  lemma ExternalizedIsAgreed(qsets: map<NodeID, QSet>, states: seq<State>, steps: seq<Step>, i: nat, j: nat, x: NodeID)
    requires IsRun(qsets, states, steps) && i <= j < |states| && x in states[i]
    requires states[i][x].node.phase == ExternalizePhase
    ensures states[i][x].node.c.Some? && Agreed(qsets, states[j], states[i][x].node.c.value.x)
  {
    BoundReached(qsets, states, steps, i);
    BoundReached(qsets, states, steps, j);
    HistKept(qsets, states, steps, i, j, x);
    var st := StatementOf(states[i][x].node);
    assert Settled(states[i][x]) && st in states[j][x].hist && st.Externalize?;
  }

  /** Well-behaved nodes never externalize different values, at whatever times of whatever run. */
  lemma ExternalizedAgree(qsets: map<NodeID, QSet>, states: seq<State>, steps: seq<Step>, i: nat, j: nat, x: NodeID,
                          y: NodeID)
    requires Intertwined(qsets) && IsRun(qsets, states, steps) && i < |states| && j < |states| && x in states[i]
    requires y in states[j]
    requires states[i][x].node.phase == ExternalizePhase && states[j][y].node.phase == ExternalizePhase
    ensures states[i][x].node.c.Some? && states[j][y].node.c.Some?
    ensures states[i][x].node.c.value.x == states[j][y].node.c.value.x
  {
    var k := if i <= j then j else i;
    BoundReached(qsets, states, steps, k);
    ExternalizedIsAgreed(qsets, states, steps, i, k, x);
    ExternalizedIsAgreed(qsets, states, steps, j, k, y);
    AgreedOnce(qsets, states[k], states[i][x].node.c.value.x, states[j][y].node.c.value.x);
  }
}
