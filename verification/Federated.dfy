/** Federated voting as src/scp/Slot.cpp decides it, over the quorum tests of src/scp/LocalNode.cpp, and why
    well-behaved nodes never accept contradictory statements, whatever the others claim and however messages are
    delayed. */
module Federated {
  import opened Quorum
  import opened Trust

  type Statement = nat

  /** What an envelope says of its sender: what it has voted for and accepted, and its quorum set. */
  datatype Claim = Claim(voted: set<Statement>, accepted: set<Statement>, qset: QSet)

  // ---------- the two tests ----------

  function QSetsOf(envs: map<NodeID, Claim>): map<NodeID, QSet> {
    map n | n in envs :: envs[n].qset
  }

  /** The nodes whose statement passes a filter. */
  method Passing(envs: map<NodeID, Claim>, filter: Claim -> bool) returns (nodes: seq<NodeID>)
    ensures forall n :: n in nodes <==> n in envs && filter(envs[n])
  {
    nodes := [];
    var left := envs.Keys;
    while left != {}
      invariant left <= envs.Keys && forall n :: n in nodes <==> n in envs && n !in left && filter(envs[n])
      decreases |left|
    {
      var n :| n in left;
      left := left - {n};
      if filter(envs[n]) {
        nodes := nodes + [n];
      }
    }
  }

  function Acceptors(envs: map<NodeID, Claim>, a: Statement): set<NodeID> {
    set n | n in envs && a in envs[n].accepted
  }

  function Supporters(envs: map<NodeID, Claim>, a: Statement): set<NodeID> {
    set n | n in envs && (a in envs[n].accepted || a in envs[n].voted)
  }

  /** `federatedAccept`: those that accepted are v-blocking, or a quorum has voted or accepted. */
  ghost predicate Accepts(local: QSet, envs: map<NodeID, Claim>, a: Statement) {
    Blocked(local, Acceptors(envs, a)) ||
    HasQuorum(local, QSetsOf(envs), Supporters(envs, a))
  }

  /** `federatedRatify` of acceptance: a quorum has accepted. */
  ghost predicate Ratifies(local: QSet, envs: map<NodeID, Claim>, a: Statement) {
    HasQuorum(local, QSetsOf(envs), Acceptors(envs, a))
  }

  method FederatedAccept(local: QSet, envs: map<NodeID, Claim>, a: Statement) returns (ok: bool)
    ensures ok == Accepts(local, envs, a)
  {
    var acceptors := Passing(envs, (c: Claim) => a in c.accepted);
    assert Elements(acceptors) == Acceptors(envs, a);
    ok := IsVBlocking(local, acceptors);
    if !ok {
      var voters := Passing(envs, (c: Claim) => a in c.accepted || a in c.voted);
      assert Elements(voters) == Supporters(envs, a);
      var largest;
      ok, largest := SearchQuorum(local, QSetsOf(envs), voters);
    }
  }

  method FederatedRatify(local: QSet, envs: map<NodeID, Claim>, a: Statement) returns (ok: bool)
    ensures ok == Ratifies(local, envs, a)
  {
    var acceptors := Passing(envs, (c: Claim) => a in c.accepted);
    assert Elements(acceptors) == Acceptors(envs, a);
    var largest;
    ok, largest := SearchQuorum(local, QSetsOf(envs), acceptors);
  }

  // ---------- a network ----------

  /** The well-behaved nodes with their quorum sets; which statements contradict each other. */
  datatype Network = Network(qsets: map<NodeID, QSet>, conflict: (Statement, Statement) -> bool)

  /** The network can be trusted, and contradiction makes sense. */
  ghost predicate Intact(net: Network) {
    Intertwined(net.qsets) && Contradictions(net)
  }

  /** Contradiction is mutual, and nothing contradicts itself. */
  ghost predicate Contradictions(net: Network) {
    forall a, b :: net.conflict(a, b) ==> net.conflict(b, a) && a != b
  }

  datatype Node = Node(voted: set<Statement>, accepted: set<Statement>, confirmed: set<Statement>)

  type State = map<NodeID, Node>

  /** What a well-behaved node claims is true, if perhaps old. A node that has externalized claims a quorum set of its
      own, but then everything it votes for it has accepted. */
  ghost predicate Truthful(net: Network, s: State, envs: map<NodeID, Claim>) {
    forall m :: m in envs && m in net.qsets ==>
      m in s && envs[m].voted <= s[m].voted && envs[m].accepted <= s[m].accepted &&
      (envs[m].qset == net.qsets[m] || (envs[m].qset == Singleton(m) && envs[m].voted <= envs[m].accepted))
  }

  datatype Step =
    | Vote(n: NodeID, a: Statement)
    | Accept(n: NodeID, a: Statement, envs: map<NodeID, Claim>)
    | Confirm(n: NodeID, a: Statement, envs: map<NodeID, Claim>)

  ghost predicate Harmless(net: Network, a: Statement, others: set<Statement>) {
    forall b :: b in others ==> !net.conflict(a, b)
  }

  ghost predicate Compatible(net: Network, votes: set<Statement>) {
    forall a, b :: a in votes && b in votes ==> !net.conflict(a, b)
  }

  /** When a well-behaved node may take a step. */
  ghost predicate Enabled(net: Network, s: State, step: Step) {
    step.n in net.qsets && step.n in s &&
    match step
    case Vote(n, a) => Harmless(net, a, s[n].voted)
    case Accept(n, a, envs) => Truthful(net, s, envs) && Accepts(net.qsets[n], envs, a)
    case Confirm(n, a, envs) => Truthful(net, s, envs) && Ratifies(net.qsets[n], envs, a)
  }

  function Next(s: State, step: Step): State
    requires step.n in s
  {
    var x := s[step.n];
    s[step.n := match step
                case Vote(_, a) => x.(voted := x.voted + {a})
                case Accept(_, a, _) => x.(accepted := x.accepted + {a})
                case Confirm(_, a, _) => x.(confirmed := x.confirmed + {a})]
  }

  function Start(net: Network): State {
    map n | n in net.qsets :: Node({}, {}, {})
  }

  /** A run: its states, one more than its steps. */
  ghost predicate IsRun(net: Network, states: seq<State>, steps: seq<Step>) {
    |states| == |steps| + 1 && states[0] == Start(net) &&
    forall i :: 0 <= i < |steps| ==> Enabled(net, states[i], steps[i]) && states[i + 1] == Next(states[i], steps[i])
  }

  // ---------- agreement ----------

  ghost predicate AllVoted(net: Network, s: State, u: set<NodeID>, a: Statement) {
    forall m :: m in u && m in net.qsets ==> m in s && a in s[m].voted
  }

  /** A quorum stands behind a: all its well-behaved members voted for it. */
  ghost predicate Backed(net: Network, s: State, a: Statement) {
    exists n, u :: QuorumFor(net.qsets, n, u) && AllVoted(net, s, u, a)
  }

  /** What every step keeps: nobody votes for contradictory statements, and whatever is accepted is backed; whatever is
      confirmed has been accepted by a quorum. */
  ghost predicate Inv(net: Network, s: State) {
    s.Keys == net.qsets.Keys &&
    (forall m :: m in s ==> Compatible(net, s[m].voted)) &&
    (forall m, a :: m in s && a in s[m].accepted ==> Backed(net, s, a)) &&
    (forall m, a :: m in s && a in s[m].confirmed ==> exists x :: x in s && a in s[x].accepted)
  }

  /** Contradictory statements are never both backed. */
  lemma BackedOnce(net: Network, s: State, a: Statement, b: Statement)
    requires Intact(net) && Inv(net, s) && Backed(net, s, a) && Backed(net, s, b)
    ensures !net.conflict(a, b)
  {
    var x, u :| QuorumFor(net.qsets, x, u) && AllVoted(net, s, u, a);
    var y, v :| QuorumFor(net.qsets, y, v) && AllVoted(net, s, v, b);
    var m := CommonMember(net.qsets, x, y, u, v);
    assert Compatible(net, s[m].voted);
  }

  /** Votes are never taken back. */
  lemma BackedStays(net: Network, s: State, step: Step, a: Statement)
    requires step.n in s && Backed(net, s, a)
    ensures Backed(net, Next(s, step), a)
  {
    var t := Next(s, step);
    var n, u :| QuorumFor(net.qsets, n, u) && AllVoted(net, s, u, a);
    assert AllVoted(net, t, u, a);
  }

  /** Whoever accepts a statement finds it backed: by another acceptor, or by the quorum it sees. */
  lemma AcceptIsBacked(net: Network, s: State, n: NodeID, a: Statement, envs: map<NodeID, Claim>)
    requires Intact(net) && Inv(net, s) && Enabled(net, s, Accept(n, a, envs))
    ensures Backed(net, s, a)
  {
    var acceptors := Acceptors(envs, a);
    if Blocked(net.qsets[n], acceptors) {
      var m := BlockedByGood(net.qsets, n, acceptors);
      assert a in s[m].accepted;
    } else {
      var u :| u <= Supporters(envs, a) && IsQuorumOf(QSetsOf(envs), u) && Slice(net.qsets[n], u);
      if exists m :: m in u && m in net.qsets && a in envs[m].accepted {
        var m :| m in u && m in net.qsets && a in envs[m].accepted;
        assert a in s[m].accepted;
      } else {
        forall m | m in u && m in net.qsets ensures Slice(net.qsets[m], u) && m in s && a in s[m].voted {
          assert m in Supporters(envs, a);
          assert QSetsOf(envs)[m] == envs[m].qset == net.qsets[m];
        }
        assert QuorumFor(net.qsets, n, u) && AllVoted(net, s, u, a);
      }
    }
  }

  /** Whoever confirms a statement finds it accepted by a well-behaved node. */
  lemma ConfirmIsAccepted(net: Network, s: State, n: NodeID, a: Statement, envs: map<NodeID, Claim>)
    requires Intact(net) && Inv(net, s) && Enabled(net, s, Confirm(n, a, envs))
    ensures exists x :: x in s && a in s[x].accepted
  {
    var acceptors := Acceptors(envs, a);
    var u :| u <= acceptors && IsQuorumOf(QSetsOf(envs), u) && Slice(net.qsets[n], u);
    var m := GoodMember(net.qsets, n, u);
    assert m in acceptors;
    assert a in s[m].accepted;
  }

  lemma InvStart(net: Network)
    ensures Inv(net, Start(net))
  {
  }

  lemma InvKept(net: Network, s: State, step: Step)
    requires Intact(net) && Inv(net, s) && Enabled(net, s, step)
    ensures Inv(net, Next(s, step))
  {
    var t := Next(s, step);
    forall m, a | m in t && a in t[m].accepted ensures Backed(net, t, a) {
      if a !in s[m].accepted { AcceptIsBacked(net, s, step.n, step.a, step.envs); }
      BackedStays(net, s, step, a);
    }
    forall m, a | m in t && a in t[m].confirmed ensures exists x :: x in t && a in t[x].accepted {
      if a !in s[m].confirmed { ConfirmIsAccepted(net, s, step.n, step.a, step.envs); }
      var x :| x in s && a in s[x].accepted;
      assert a in t[x].accepted;
    }
    VotesAgree(net, s, step);
  }

  lemma VotesAgree(net: Network, s: State, step: Step)
    requires Intact(net) && Inv(net, s) && Enabled(net, s, step)
    ensures var t := Next(s, step); forall m :: m in t ==> Compatible(net, t[m].voted)
  {
  }

  lemma {:induction false} InvReached(net: Network, states: seq<State>, steps: seq<Step>, i: nat)
    requires Intact(net) && IsRun(net, states, steps) && i < |states|
    ensures Inv(net, states[i])
    decreases i
  {
    if i == 0 {
      InvStart(net);
    } else {
      InvReached(net, states, steps, i - 1);
      assert Enabled(net, states[i - 1], steps[i - 1]) && states[i - 1 + 1] == Next(states[i - 1], steps[i - 1]);
      InvKept(net, states[i - 1], steps[i - 1]);
    }
  }

  /** Agreement, over all runs: no two well-behaved nodes accept, or confirm, contradictory statements. */
  lemma Agreement(net: Network, states: seq<State>, steps: seq<Step>, x: NodeID, y: NodeID, a: Statement, b: Statement)
    requires Intact(net) && IsRun(net, states, steps)
    requires var s := states[|steps|];
             x in s && y in s && a in s[x].accepted + s[x].confirmed && b in s[y].accepted + s[y].confirmed
    ensures !net.conflict(a, b)
  {
    var s := states[|steps|];
    InvReached(net, states, steps, |steps|);
    AcceptedSomewhere(net, s, x, a);
    AcceptedSomewhere(net, s, y, b);
    BackedOnce(net, s, a, b);
  }

  lemma AcceptedSomewhere(net: Network, s: State, x: NodeID, a: Statement)
    requires Inv(net, s) && x in s && a in s[x].accepted + s[x].confirmed
    ensures Backed(net, s, a)
  {
    if a !in s[x].accepted {
      var m :| m in s && a in s[m].accepted;
    }
  }
}
