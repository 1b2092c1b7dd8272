/** A run of src/scp/BallotProtocol.cpp without its assertions in which two well-behaved nodes accept commits of
    different values. One of four nodes misbehaves. The node whose assertion would have failed votes to commit a ballot
    it has voted to abort, because the commit it finds has another value than the ballot it confirms as prepared. */
module BallotSplit {
  import opened Sealing
  import opened Quorum
  import opened QuorumSets
  import opened Trust
  import opened Ballot
  import opened BallotSafety

  /** Three of four. */
  const FOUR := QSet(3, [0, 1, 2, 3], [])

  /** Node 3 misbehaves. */
  const GOOD := map[0 := FOUR, 1 := FOUR, 2 := FOUR]

  // ---------- what the nodes go through ----------

  function B(n: nat, x: nat): Option<Ballot> {
    Some(Ballot(n, x))
  }

  /** Votes to commit (1, 1), gives that up for (1, 2), and ends up voting to commit (3, 2). */
  const FIRST: seq<Node> := [
    NEW_NODE,
    Node(B(1, 1), None, None, None, None, PreparePhase),
    Node(B(1, 1), B(1, 1), None, None, None, PreparePhase),
    Node(B(1, 1), B(1, 1), None, B(1, 1), B(1, 1), PreparePhase),
    Node(B(2, 1), B(1, 1), None, B(1, 1), B(1, 1), PreparePhase),
    Node(B(2, 1), B(2, 1), None, B(1, 1), B(1, 1), PreparePhase),
    Node(B(2, 1), B(2, 1), B(1, 2), B(1, 1), None, PreparePhase),
    Node(B(2, 1), B(2, 1), B(1, 2), B(1, 2), None, PreparePhase),
    Node(B(3, 2), B(2, 1), B(1, 2), B(1, 2), None, PreparePhase),
    Node(B(3, 2), B(3, 2), B(2, 1), B(1, 2), None, PreparePhase),
    Node(B(3, 2), B(3, 2), B(2, 1), B(3, 2), B(3, 2), PreparePhase)]

  /** Votes for (1, 2), then confirms (2, 1) with (1, 2) as its commit, and accepts the commit of (1, 1). */
  const SECOND: seq<Node> := [
    NEW_NODE,
    Node(B(1, 2), None, None, None, None, PreparePhase),
    Node(B(1, 2), B(1, 2), None, None, None, PreparePhase),
    Node(B(1, 2), B(2, 1), B(1, 2), None, None, PreparePhase),
    Node(B(2, 1), B(2, 1), B(1, 2), B(2, 1), B(1, 2), PreparePhase),
    Node(B(2, 1), B(2, 1), None, B(1, 1), B(1, 1), ConfirmPhase)]

  /** Votes for (1, 2), for (2, 1), and for (3, 2), whose commit it accepts. */
  const THIRD: seq<Node> := [
    NEW_NODE,
    Node(B(1, 2), None, None, None, None, PreparePhase),
    Node(B(1, 2), B(1, 2), None, None, None, PreparePhase),
    Node(B(2, 1), B(1, 2), None, None, None, PreparePhase),
    Node(B(2, 1), B(1, 2), B(1, 1), None, None, PreparePhase),
    Node(B(2, 1), B(2, 1), B(1, 2), None, None, PreparePhase),
    Node(B(3, 2), B(2, 1), B(1, 2), None, None, PreparePhase),
    Node(B(3, 2), B(3, 2), B(2, 1), None, None, PreparePhase),
    Node(B(3, 2), B(3, 2), B(2, 1), B(3, 2), B(3, 2), PreparePhase),
    Node(B(3, 2), B(3, 2), None, B(3, 2), B(3, 2), ConfirmPhase)]

  // ---------- nodes that go through given states ----------

  ghost predicate Table(ns: seq<Node>) {
    ns != [] && ns[0] == NEW_NODE && forall i :: 0 <= i < |ns| ==> Speaks(ns[i]) && ns[i].phase != ExternalizePhase
  }

  ghost function Said(ns: seq<Node>, i: nat): set<Statement>
    requires Table(ns) && i < |ns|
  {
    set j | 0 <= j <= i :: StatementOf(ns[j])
  }

  /** The three nodes at their places in the tables. */
  ghost function At(x: seq<Node>, y: seq<Node>, z: seq<Node>, i: nat, j: nat, k: nat): State
    requires Table(x) && Table(y) && Table(z) && i < |x| && j < |y| && k < |z|
  {
    map[0 := Peer(x[i], Said(x, i)), 1 := Peer(y[j], Said(y, j)), 2 := Peer(z[k], Said(z, k))]
  }

  /** Statements of the four nodes, the first three of them as they were at some time. */
  function Heard(x: Node, y: Node, z: Node, other: Statement): Envelopes
    requires Speaks(x) && Speaks(y) && Speaks(z)
  {
    map[0 := Envelope(StatementOf(x), FOUR), 1 := Envelope(StatementOf(y), FOUR), 2 := Envelope(StatementOf(z), FOUR),
        3 := Envelope(other, FOUR)]
  }

  lemma HeardIsTrue(x: seq<Node>, y: seq<Node>, z: seq<Node>, i: nat, j: nat, k: nat, a: nat, b: nat, c: nat,
                    other: Statement)
    requires Table(x) && Table(y) && Table(z) && a <= i < |x| && b <= j < |y| && c <= k < |z|
    ensures Truthful(GOOD, At(x, y, z, i, j, k), Heard(x[a], y[b], z[c], other))
  {
    assert StatementOf(x[a]) in Said(x, i);
    assert StatementOf(y[b]) in Said(y, j);
    assert StatementOf(z[c]) in Said(z, k);
  }

  lemma SaidMore(ns: seq<Node>, i: nat)
    requires Table(ns) && i + 1 < |ns|
    ensures Said(ns, i + 1) == Said(ns, i) + {StatementOf(ns[i + 1])}
  {
  }

  /** With its guard and on true information a node moves on. */
  lemma MoveOf(s: State, step: Step, next: Node)
    requires step.n in s && step.n in GOOD && Guard(FOUR, s[step.n].node, step) && After(s[step.n].node, step) == next
    requires Speaks(next)
    requires !step.Bump? ==> Truthful(GOOD, s, step.envs)
    ensures Enabled(GOOD, s, step) && Next(s, step) == s[step.n := Peer(next, s[step.n].hist + {StatementOf(next)})]
  {
  }

  // ---------- the steps they take ----------

  /** Node 3 says it has accepted the ballot as prepared. */
  function Vote(n: nat, x: nat): Statement {
    Prepare(Ballot(n, x), B(n, x), None, 0, 0)
  }

  /** Node 3 says it votes to commit the ballot. */
  function CommitTo(n: nat, x: nat): Statement {
    Prepare(Ballot(n, x), B(n, x), None, n, n)
  }

  const BOTH := Prepare(Ballot(2, 1), B(2, 1), B(1, 2), 0, 0)

  function News(a: nat, b: nat, c: nat, other: Statement): Envelopes
    requires a < |FIRST| && b < |SECOND| && c < |THIRD|
  {
    Heard(FIRST[a], SECOND[b], THIRD[c], other)
  }

  /** The step from each place in its table. */
  function StepFrom0(i: nat): Step {
    if i == 0 then Bump(0, 1, 1)
    else if i == 1 then AcceptPrepared(0, Ballot(1, 1), News(1, 0, 3, Vote(1, 1)))
    else if i == 2 then ConfirmPrepared(0, B(1, 1), Ballot(1, 1), News(2, 0, 4, Vote(1, 1)))
    else if i == 3 then Bump(0, 1, 2)
    else if i == 4 then AcceptPrepared(0, Ballot(2, 1), News(4, 0, 4, Vote(2, 1)))
    else if i == 5 then AcceptPrepared(0, Ballot(1, 2), News(5, 2, 4, Vote(1, 2)))
    else if i == 6 then ConfirmPrepared(0, None, Ballot(1, 2), News(6, 2, 4, Vote(1, 2)))
    else if i == 7 then Bump(0, 2, 3)
    else if i == 8 then AcceptPrepared(0, Ballot(3, 2), News(8, 2, 6, Vote(3, 2)))
    else ConfirmPrepared(0, B(3, 2), Ballot(3, 2), News(9, 2, 7, Vote(3, 2)))
  }

  function StepFrom1(i: nat): Step {
    if i == 0 then Bump(1, 2, 1)
    else if i == 1 then AcceptPrepared(1, Ballot(1, 2), News(0, 1, 1, Vote(1, 2)))
    else if i == 2 then AcceptPrepared(1, Ballot(2, 1), News(5, 2, 5, Vote(2, 1)))
    else if i == 3 then ConfirmPrepared(1, B(1, 2), Ballot(2, 1), News(5, 3, 5, BOTH))
    else AcceptCommit(1, 1, 1, 1, News(3, 4, 5, CommitTo(1, 1)))
  }

  function StepFrom2(i: nat): Step {
    if i == 0 then Bump(2, 2, 1)
    else if i == 1 then AcceptPrepared(2, Ballot(1, 2), News(0, 1, 1, Vote(1, 2)))
    else if i == 2 then Bump(2, 1, 2)
    else if i == 3 then AcceptPrepared(2, Ballot(1, 1), News(1, 2, 3, Vote(1, 1)))
    else if i == 4 then AcceptPrepared(2, Ballot(2, 1), News(4, 2, 4, Vote(2, 1)))
    else if i == 5 then Bump(2, 2, 3)
    else if i == 6 then AcceptPrepared(2, Ballot(3, 2), News(8, 2, 6, Vote(3, 2)))
    else if i == 7 then ConfirmPrepared(2, B(3, 2), Ballot(3, 2), News(9, 2, 7, Vote(3, 2)))
    else AcceptCommit(2, 2, 3, 3, News(10, 2, 8, CommitTo(3, 2)))
  }

  // ---------- the steps can be taken ----------

  lemma ThreeSlice(a: NodeID, b: NodeID, c: NodeID, u: set<NodeID>)
    requires a < b < c <= 3 && a in u && b in u && c in u
    ensures Slice(FOUR, u)
  {
    var vs := FOUR.validators;
    CountNodesSnoc(vs, 0, u);
    CountNodesSnoc(vs, 1, u);
    CountNodesSnoc(vs, 2, u);
    CountNodesSnoc(vs, 3, u);
    assert vs[..4] == vs && vs[..0] == [];
  }

  /** Three of the four make a quorum. */
  lemma ThreeQuorum(envs: Envelopes, a: NodeID, b: NodeID, c: NodeID, who: set<NodeID>)
    requires (forall n :: n in {0, 1, 2, 3} ==> n in envs && envs[n].qset == FOUR) && a < b < c <= 3 && a in who
    requires b in who && c in who
    ensures HasQuorum(FOUR, QSetsOf(envs), who)
  {
    var u := {a, b, c};
    ThreeSlice(a, b, c, u);
    assert u <= who && IsQuorumOf(QSetsOf(envs), u) && Slice(FOUR, u);
  }

  lemma PreparedByThree(envs: Envelopes, y: Ballot, a: NodeID, b: NodeID, c: NodeID)
    requires (forall n :: n in {0, 1, 2, 3} ==> n in envs && envs[n].qset == FOUR) && a < b < c <= 3
    requires HasPrepared(y, envs[a].st) && HasPrepared(y, envs[b].st) && HasPrepared(y, envs[c].st)
    ensures RatifiesPrepared(FOUR, envs, y)
  {
    ThreeQuorum(envs, a, b, c, HavePrepared(envs, y));
  }

  lemma SupportedByThree(envs: Envelopes, y: Ballot, a: NodeID, b: NodeID)
    requires (forall n :: n in {0, 1, 2, 3} ==> n in envs && envs[n].qset == FOUR) && a < b < 3
    requires HasPrepared(y, envs[3].st)
    requires HasPrepared(y, envs[a].st) || VotesPrepare(y, envs[a].st)
    requires HasPrepared(y, envs[b].st) || VotesPrepare(y, envs[b].st)
    ensures AcceptsPrepared(FOUR, envs, y)
  {
    ThreeQuorum(envs, a, b, 3, SupportPrepare(envs, y));
  }

  lemma CommittedByThree(envs: Envelopes, n: nat, x: Value, a: NodeID, b: NodeID)
    requires (forall n :: n in {0, 1, 2, 3} ==> n in envs && envs[n].qset == FOUR) && a < b < 3
    requires VotesCommit(x, n, n, envs[a].st) && VotesCommit(x, n, n, envs[b].st) && VotesCommit(x, n, n, envs[3].st)
    ensures AcceptsCommitted(FOUR, envs, x, n, n)
  {
    ThreeQuorum(envs, a, b, 3, SupportCommit(envs, x, n, n));
  }

  /** The node takes the step, and `emitCurrentStateStatement` lets its statement pass: it is sane, and newer than the
      last unless the same. */
  ghost predicate Takes(s: Node, step: Step, t: Node) {
    Speaks(s) && Speaks(t) && Guard(FOUR, s, step) && After(s, step) == t && IsSane(StatementOf(t)) &&
    (StatementOf(t) == StatementOf(s) || IsNewer(StatementOf(s), StatementOf(t)))
  }

  lemma Takes0A(i: nat)
    requires i < 3
    ensures StepFrom0(i).n == 0 && Takes(FIRST[i], StepFrom0(i), FIRST[i + 1])
  {
    if i == 1 {
      SupportedByThree(News(1, 0, 3, Vote(1, 1)), Ballot(1, 1), 0, 2);
    } else if i == 2 {
      PreparedByThree(News(2, 0, 4, Vote(1, 1)), Ballot(1, 1), 0, 2, 3);
    }
  }

  lemma Takes0B(i: nat)
    requires 3 <= i < 6
    ensures StepFrom0(i).n == 0 && Takes(FIRST[i], StepFrom0(i), FIRST[i + 1])
  {
    if i == 4 {
      SupportedByThree(News(4, 0, 4, Vote(2, 1)), Ballot(2, 1), 0, 2);
    } else if i == 5 {
      SupportedByThree(News(5, 2, 4, Vote(1, 2)), Ballot(1, 2), 1, 2);
    }
  }

  lemma Takes0C(i: nat)
    requires 6 <= i < 8
    ensures StepFrom0(i).n == 0 && Takes(FIRST[i], StepFrom0(i), FIRST[i + 1])
  {
    if i == 6 {
      PreparedByThree(News(6, 2, 4, Vote(1, 2)), Ballot(1, 2), 0, 1, 2);
    }
  }

  lemma Takes0D(i: nat)
    requires 8 <= i < 10
    ensures StepFrom0(i).n == 0 && Takes(FIRST[i], StepFrom0(i), FIRST[i + 1])
  {
    if i == 8 {
      SupportedByThree(News(8, 2, 6, Vote(3, 2)), Ballot(3, 2), 0, 2);
    } else if i == 9 {
      PreparedByThree(News(9, 2, 7, Vote(3, 2)), Ballot(3, 2), 0, 2, 3);
    }
  }

  lemma Takes0(i: nat)
    requires i < 10
    ensures StepFrom0(i).n == 0 && Takes(FIRST[i], StepFrom0(i), FIRST[i + 1])
  {
    if i < 3 { Takes0A(i); } else if i < 6 { Takes0B(i); } else if i < 8 { Takes0C(i); } else { Takes0D(i); }
  }

  lemma Takes1A(i: nat)
    requires i < 3
    ensures StepFrom1(i).n == 1 && Takes(SECOND[i], StepFrom1(i), SECOND[i + 1])
  {
    if i == 1 {
      SupportedByThree(News(0, 1, 1, Vote(1, 2)), Ballot(1, 2), 1, 2);
    } else if i == 2 {
      SupportedByThree(News(5, 2, 5, Vote(2, 1)), Ballot(2, 1), 0, 2);
    }
  }

  lemma Takes1B(i: nat)
    requires 3 <= i < 5
    ensures StepFrom1(i).n == 1 && Takes(SECOND[i], StepFrom1(i), SECOND[i + 1])
  {
    if i == 3 {
      PreparedByThree(News(5, 3, 5, BOTH), Ballot(2, 1), 0, 2, 3);
      PreparedByThree(News(5, 3, 5, BOTH), Ballot(1, 2), 1, 2, 3);
    } else if i == 4 {
      CommittedByThree(News(3, 4, 5, CommitTo(1, 1)), 1, 1, 0, 1);
    }
  }

  lemma Takes1(i: nat)
    requires i < 5
    ensures StepFrom1(i).n == 1 && Takes(SECOND[i], StepFrom1(i), SECOND[i + 1])
  {
    if i < 3 { Takes1A(i); } else { Takes1B(i); }
  }

  lemma Takes2A(i: nat)
    requires i < 4
    ensures StepFrom2(i).n == 2 && Takes(THIRD[i], StepFrom2(i), THIRD[i + 1])
  {
    if i == 1 {
      SupportedByThree(News(0, 1, 1, Vote(1, 2)), Ballot(1, 2), 1, 2);
    } else if i == 3 {
      SupportedByThree(News(1, 2, 3, Vote(1, 1)), Ballot(1, 1), 0, 2);
    }
  }

  lemma Takes2B(i: nat)
    requires 4 <= i < 7
    ensures StepFrom2(i).n == 2 && Takes(THIRD[i], StepFrom2(i), THIRD[i + 1])
  {
    if i == 4 {
      SupportedByThree(News(4, 2, 4, Vote(2, 1)), Ballot(2, 1), 0, 2);
    } else if i == 6 {
      SupportedByThree(News(8, 2, 6, Vote(3, 2)), Ballot(3, 2), 0, 2);
    }
  }

  lemma Takes2C(i: nat)
    requires 7 <= i < 9
    ensures StepFrom2(i).n == 2 && Takes(THIRD[i], StepFrom2(i), THIRD[i + 1])
  {
    if i == 7 {
      PreparedByThree(News(9, 2, 7, Vote(3, 2)), Ballot(3, 2), 0, 2, 3);
    } else if i == 8 {
      CommittedByThree(News(10, 2, 8, CommitTo(3, 2)), 3, 2, 0, 2);
    }
  }

  lemma Takes2(i: nat)
    requires i < 9
    ensures StepFrom2(i).n == 2 && Takes(THIRD[i], StepFrom2(i), THIRD[i + 1])
  {
    if i < 4 { Takes2A(i); } else if i < 7 { Takes2B(i); } else { Takes2C(i); }
  }

  // ---------- the run ----------

  lemma Tables()
    ensures Table(FIRST) && Table(SECOND) && Table(THIRD) && |FIRST| == 11 && |SECOND| == 6 && |THIRD| == 10
  {
  }

  /** How far the others have to be for a node to go on. */
  predicate Ready0(i: nat, j: nat, k: nat) {
    i < 10 && (1 <= i < 9 && i != 3 ==> k >= if i == 1 then 3 else 4) && (i >= 5 ==> j >= 2) && (i == 8 ==> k >= 6) &&
    (i == 9 ==> k >= 7)
  }

  predicate Ready1(i: nat, j: nat, k: nat) {
    j < 5 && (j >= 1 ==> k >= 1) && (j >= 2 ==> i >= 5 && k >= 5)
  }

  predicate Ready2(i: nat, j: nat, k: nat) {
    k < 9 && (k >= 1 ==> j >= 1) && (k >= 3 ==> i >= 1 && j >= 2) && (k >= 4 ==> i >= 4) && (k >= 6 ==> i >= 8) &&
    (k >= 7 ==> i >= 9) &&
    (k >= 8 ==> i >= 10)
  }

  /** `emitCurrentStateStatement` lets the statement after the step pass. */
  ghost predicate Emits(s: State, step: Step) {
    step.n in s && Speaks(s[step.n].node) && Speaks(After(s[step.n].node, step)) &&
    var was, st := StatementOf(s[step.n].node), StatementOf(After(s[step.n].node, step));
    IsSane(st) && (st == was || IsNewer(was, st))
  }

  ghost predicate AllEmit(states: seq<State>, steps: seq<Step>) {
    |states| == |steps| + 1 && forall n :: 0 <= n < |steps| ==> Emits(states[n], steps[n])
  }

  lemma EmitOn(states: seq<State>, steps: seq<Step>, step: Step, next: State)
    requires AllEmit(states, steps) && Emits(states[|steps|], step)
    ensures AllEmit(states + [next], steps + [step])
  {
    forall n | 0 <= n < |steps + [step]| ensures Emits((states + [next])[n], (steps + [step])[n]) {
      if n < |steps| { assert Emits(states[n], steps[n]); }
    }
  }

  /** A run that takes the three nodes to the given places in their tables. */
  ghost predicate Reached(x: seq<Node>, y: seq<Node>, z: seq<Node>, states: seq<State>, steps: seq<Step>, i: nat,
                          j: nat, k: nat) {
    Table(x) && Table(y) && Table(z) && i < |x| && j < |y| && k < |z| && IsRun(GOOD, states, steps) &&
    states[|steps|] == At(x, y, z, i, j, k) && AllEmit(states, steps)
  }

  ghost predicate Reachable(x: seq<Node>, y: seq<Node>, z: seq<Node>, i: nat, j: nat, k: nat) {
    i < |x| && j < |y| && k < |z| && forall seal :: Seal(Readings, seal) ==>
        exists states, steps :: Reached(x, y, z, states, steps, i, j, k)
  }

  lemma True0(i: nat, j: nat, k: nat)
    requires Ready0(i, j, k) && i < |FIRST| && j < |SECOND| && k < |THIRD| && Table(FIRST) && Table(SECOND)
    requires Table(THIRD)
    ensures !StepFrom0(i).Bump? ==> Truthful(GOOD, At(FIRST, SECOND, THIRD, i, j, k), StepFrom0(i).envs)
  {
    if i == 1 { HeardIsTrue(FIRST, SECOND, THIRD, i, j, k, 1, 0, 3, Vote(1, 1)); }
    else if i == 2 { HeardIsTrue(FIRST, SECOND, THIRD, i, j, k, 2, 0, 4, Vote(1, 1)); }
    else if i == 4 { HeardIsTrue(FIRST, SECOND, THIRD, i, j, k, 4, 0, 4, Vote(2, 1)); }
    else if i == 5 { HeardIsTrue(FIRST, SECOND, THIRD, i, j, k, 5, 2, 4, Vote(1, 2)); }
    else if i == 6 { HeardIsTrue(FIRST, SECOND, THIRD, i, j, k, 6, 2, 4, Vote(1, 2)); }
    else if i == 8 { HeardIsTrue(FIRST, SECOND, THIRD, i, j, k, 8, 2, 6, Vote(3, 2)); }
    else if i == 9 { HeardIsTrue(FIRST, SECOND, THIRD, i, j, k, 9, 2, 7, Vote(3, 2)); }
  }

  lemma Move0(x: seq<Node>, y: seq<Node>, z: seq<Node>, i: nat, j: nat, k: nat, step: Step)
    requires Table(x) && Table(y) && Table(z) && i < |x| && j < |y| && k < |z| && i + 1 < |x| && step.n == 0
    requires Takes(x[i], step, x[i + 1]) && (!step.Bump? ==> Truthful(GOOD, At(x, y, z, i, j, k), step.envs))
    ensures Enabled(GOOD, At(x, y, z, i, j, k), step) && Next(At(x, y, z, i, j, k), step) == At(x, y, z, i + 1, j, k)
  {
    MoveOf(At(x, y, z, i, j, k), step, x[i + 1]);
    Moved0(x, y, z, i, j, k);
  }

  lemma Moved0(x: seq<Node>, y: seq<Node>, z: seq<Node>, i: nat, j: nat, k: nat)
    requires Table(x) && Table(y) && Table(z) && i < |x| && j < |y| && k < |z| && i + 1 < |x|
    ensures At(x, y, z, i, j, k)[0 := Peer(x[i + 1], Said(x, i) + {StatementOf(x[i + 1])})] == At(x, y, z, i + 1, j, k)
  {
    SaidMore(x, i);
  }

  /** A step that can be taken leads on. */
  lemma Extend(x: seq<Node>, y: seq<Node>, z: seq<Node>, i: nat, j: nat, k: nat, i': nat, j': nat, k': nat, step: Step)
    requires Reachable(x, y, z, i, j, k) && i' < |x| && j' < |y| && k' < |z|
    requires Table(x) && Table(y) && Table(z) && Enabled(GOOD, At(x, y, z, i, j, k), step)
    requires Next(At(x, y, z, i, j, k), step) == At(x, y, z, i', j', k') && Emits(At(x, y, z, i, j, k), step)
    ensures Reachable(x, y, z, i', j', k')
  {
    assert Seal(Readings, 0);
    var states, steps :| Reached(x, y, z, states, steps, i, j, k);
    RunOn(GOOD, states, steps, step);
    EmitOn(states, steps, step, At(x, y, z, i', j', k'));
    assert Reached(x, y, z, states + [At(x, y, z, i', j', k')], steps + [step], i', j', k');
  }

  lemma Go0(i: nat, j: nat, k: nat)
    requires Reachable(FIRST, SECOND, THIRD, i, j, k) && Ready0(i, j, k)
    ensures Reachable(FIRST, SECOND, THIRD, i + 1, j, k)
  {
    Tables();
    Takes0(i);
    True0(i, j, k);
    Advance0(FIRST, SECOND, THIRD, i, j, k, StepFrom0(i));
  }

  lemma Advance0(x: seq<Node>, y: seq<Node>, z: seq<Node>, i: nat, j: nat, k: nat, step: Step)
    requires Reachable(x, y, z, i, j, k) && Table(x) && Table(y) && Table(z) && i + 1 < |x| && step.n == 0
    requires Takes(x[i], step, x[i + 1])
    requires !step.Bump? ==> Truthful(GOOD, At(x, y, z, i, j, k), step.envs)
    ensures Reachable(x, y, z, i + 1, j, k)
  {
    Move0(x, y, z, i, j, k, step);
    Extend(x, y, z, i, j, k, i + 1, j, k, step);
  }

  lemma True1(i: nat, j: nat, k: nat)
    requires Ready1(i, j, k) && i < |FIRST| && j < |SECOND| && k < |THIRD| && Table(FIRST) && Table(SECOND)
    requires Table(THIRD)
    ensures !StepFrom1(j).Bump? ==> Truthful(GOOD, At(FIRST, SECOND, THIRD, i, j, k), StepFrom1(j).envs)
  {
    if j == 1 { HeardIsTrue(FIRST, SECOND, THIRD, i, j, k, 0, 1, 1, Vote(1, 2)); }
    else if j == 2 { HeardIsTrue(FIRST, SECOND, THIRD, i, j, k, 5, 2, 5, Vote(2, 1)); }
    else if j == 3 { HeardIsTrue(FIRST, SECOND, THIRD, i, j, k, 5, 3, 5, BOTH); }
    else if j == 4 { HeardIsTrue(FIRST, SECOND, THIRD, i, j, k, 3, 4, 5, CommitTo(1, 1)); }
  }

  lemma Move1(x: seq<Node>, y: seq<Node>, z: seq<Node>, i: nat, j: nat, k: nat, step: Step)
    requires Table(x) && Table(y) && Table(z) && i < |x| && j < |y| && k < |z| && j + 1 < |y| && step.n == 1
    requires Takes(y[j], step, y[j + 1]) && (!step.Bump? ==> Truthful(GOOD, At(x, y, z, i, j, k), step.envs))
    ensures Enabled(GOOD, At(x, y, z, i, j, k), step) && Next(At(x, y, z, i, j, k), step) == At(x, y, z, i, j + 1, k)
  {
    MoveOf(At(x, y, z, i, j, k), step, y[j + 1]);
    Moved1(x, y, z, i, j, k);
  }

  lemma Moved1(x: seq<Node>, y: seq<Node>, z: seq<Node>, i: nat, j: nat, k: nat)
    requires Table(x) && Table(y) && Table(z) && i < |x| && j < |y| && k < |z| && j + 1 < |y|
    ensures At(x, y, z, i, j, k)[1 := Peer(y[j + 1], Said(y, j) + {StatementOf(y[j + 1])})] == At(x, y, z, i, j + 1, k)
  {
    SaidMore(y, j);
  }

  lemma Go1(i: nat, j: nat, k: nat)
    requires Reachable(FIRST, SECOND, THIRD, i, j, k) && Ready1(i, j, k)
    ensures Reachable(FIRST, SECOND, THIRD, i, j + 1, k)
  {
    Tables();
    Takes1(j);
    True1(i, j, k);
    Advance1(FIRST, SECOND, THIRD, i, j, k, StepFrom1(j));
  }

  lemma Advance1(x: seq<Node>, y: seq<Node>, z: seq<Node>, i: nat, j: nat, k: nat, step: Step)
    requires Reachable(x, y, z, i, j, k) && Table(x) && Table(y) && Table(z) && j + 1 < |y| && step.n == 1
    requires Takes(y[j], step, y[j + 1])
    requires !step.Bump? ==> Truthful(GOOD, At(x, y, z, i, j, k), step.envs)
    ensures Reachable(x, y, z, i, j + 1, k)
  {
    Move1(x, y, z, i, j, k, step);
    Extend(x, y, z, i, j, k, i, j + 1, k, step);
  }

  lemma True2(i: nat, j: nat, k: nat)
    requires Ready2(i, j, k) && i < |FIRST| && j < |SECOND| && k < |THIRD| && Table(FIRST) && Table(SECOND)
    requires Table(THIRD)
    ensures !StepFrom2(k).Bump? ==> Truthful(GOOD, At(FIRST, SECOND, THIRD, i, j, k), StepFrom2(k).envs)
  {
    if k == 1 { HeardIsTrue(FIRST, SECOND, THIRD, i, j, k, 0, 1, 1, Vote(1, 2)); }
    else if k == 3 { HeardIsTrue(FIRST, SECOND, THIRD, i, j, k, 1, 2, 3, Vote(1, 1)); }
    else if k == 4 { HeardIsTrue(FIRST, SECOND, THIRD, i, j, k, 4, 2, 4, Vote(2, 1)); }
    else if k == 6 { HeardIsTrue(FIRST, SECOND, THIRD, i, j, k, 8, 2, 6, Vote(3, 2)); }
    else if k == 7 { HeardIsTrue(FIRST, SECOND, THIRD, i, j, k, 9, 2, 7, Vote(3, 2)); }
    else if k == 8 { HeardIsTrue(FIRST, SECOND, THIRD, i, j, k, 10, 2, 8, CommitTo(3, 2)); }
  }

  lemma Move2(x: seq<Node>, y: seq<Node>, z: seq<Node>, i: nat, j: nat, k: nat, step: Step)
    requires Table(x) && Table(y) && Table(z) && i < |x| && j < |y| && k < |z| && k + 1 < |z| && step.n == 2
    requires Takes(z[k], step, z[k + 1]) && (!step.Bump? ==> Truthful(GOOD, At(x, y, z, i, j, k), step.envs))
    ensures Enabled(GOOD, At(x, y, z, i, j, k), step) && Next(At(x, y, z, i, j, k), step) == At(x, y, z, i, j, k + 1)
  {
    MoveOf(At(x, y, z, i, j, k), step, z[k + 1]);
    Moved2(x, y, z, i, j, k);
  }

  lemma Moved2(x: seq<Node>, y: seq<Node>, z: seq<Node>, i: nat, j: nat, k: nat)
    requires Table(x) && Table(y) && Table(z) && i < |x| && j < |y| && k < |z| && k + 1 < |z|
    ensures At(x, y, z, i, j, k)[2 := Peer(z[k + 1], Said(z, k) + {StatementOf(z[k + 1])})] == At(x, y, z, i, j, k + 1)
  {
    SaidMore(z, k);
  }

  lemma Go2(i: nat, j: nat, k: nat)
    requires Reachable(FIRST, SECOND, THIRD, i, j, k) && Ready2(i, j, k)
    ensures Reachable(FIRST, SECOND, THIRD, i, j, k + 1)
  {
    Tables();
    Takes2(k);
    True2(i, j, k);
    Advance2(FIRST, SECOND, THIRD, i, j, k, StepFrom2(k));
  }

  lemma Advance2(x: seq<Node>, y: seq<Node>, z: seq<Node>, i: nat, j: nat, k: nat, step: Step)
    requires Reachable(x, y, z, i, j, k) && Table(x) && Table(y) && Table(z) && k + 1 < |z| && step.n == 2
    requires Takes(z[k], step, z[k + 1])
    requires !step.Bump? ==> Truthful(GOOD, At(x, y, z, i, j, k), step.envs)
    ensures Reachable(x, y, z, i, j, k + 1)
  {
    Move2(x, y, z, i, j, k, step);
    Extend(x, y, z, i, j, k, i, j, k + 1, step);
  }

  /** Up to where node 1 fails its assertion and accepts the commit of value 1. */
  lemma FirstHalf()
    ensures Reachable(FIRST, SECOND, THIRD, 5, 5, 5)
  {
    Tables();
    Began();
    assert Reached(FIRST, SECOND, THIRD, [Start(GOOD)], [], 0, 0, 0);
    Go0(0, 0, 0);
    Go1(1, 0, 0);
    Go2(1, 1, 0);
    Go1(1, 1, 1);
    Go2(1, 2, 1);
    Go2(1, 2, 2);
    Go0(1, 2, 3);
    Go2(2, 2, 3);
    Go0(2, 2, 4);
    Go0(3, 2, 4);
    Go0(4, 2, 4);
    Go2(5, 2, 4);
    Go1(5, 2, 5);
    Go1(5, 3, 5);
    Go1(5, 4, 5);
  }

  lemma SaidFirst(ns: seq<Node>)
    requires Table(ns)
    ensures Said(ns, 0) == {StatementOf(NEW_NODE)}
  {
  }

  lemma Began()
    requires Table(FIRST) && Table(SECOND) && Table(THIRD)
    ensures Start(GOOD) == At(FIRST, SECOND, THIRD, 0, 0, 0)
  {
    SaidFirst(FIRST);
    SaidFirst(SECOND);
    SaidFirst(THIRD);
  }

  /** And on to where node 2 accepts the commit of value 2. */
  lemma SecondHalf()
    requires Reachable(FIRST, SECOND, THIRD, 5, 5, 5)
    ensures Reachable(FIRST, SECOND, THIRD, 10, 5, 9)
  {
    Go0(5, 5, 5);
    Go0(6, 5, 5);
    Go0(7, 5, 5);
    Go2(8, 5, 5);
    Go0(8, 5, 6);
    Go2(9, 5, 6);
    Go2(9, 5, 7);
    Go0(9, 5, 8);
    Go2(10, 5, 8);
  }

  /** Without the assertions, well-behaved nodes that can rely on each other may accept commits of different values. */
  lemma SplitRun() returns (states: seq<State>, steps: seq<Step>)
    ensures Intertwined(GOOD) && IsRun(GOOD, states, steps) && !IsCheckedRun(GOOD, states, steps)
    ensures states[|steps|].Keys == {0, 1, 2}
    ensures forall i :: 0 <= i < |steps| ==> Emits(states[i], steps[i])
    ensures var s := states[|steps|]; s[1].node.phase == ConfirmPhase && s[2].node.phase == ConfirmPhase &&
                                      s[1].node.c == B(1, 1) && s[2].node.c == B(3, 2)
  {
    FirstHalf();
    SecondHalf();
    assert Seal(Readings, 0);
    states, steps :| Reached(FIRST, SECOND, THIRD, states, steps, 10, 5, 9);
    Ends(states[|steps|]);
    FourIntertwined();
    if IsCheckedRun(GOOD, states, steps) { Agreement(GOOD, states, steps, |steps|, |steps|, 1, 2); }
  }

  lemma Ends(s: State)
    requires Table(FIRST) && Table(SECOND) && Table(THIRD) && s == At(FIRST, SECOND, THIRD, 10, 5, 9)
    ensures s.Keys == {0, 1, 2} && s[1].node == SECOND[5] && s[2].node == THIRD[9]
  {
  }

  lemma FourIntertwined()
    ensures Intertwined(GOOD)
  {
    var vs := FOUR.validators;
    CountNodesSnoc(vs, 0, GOOD.Keys);
    CountNodesSnoc(vs, 1, GOOD.Keys);
    CountNodesSnoc(vs, 2, GOOD.Keys);
    CountNodesSnoc(vs, 3, GOOD.Keys);
    assert vs[..4] == vs && vs[..0] == [];
    ThirdFaulty(GOOD, FOUR, 1);
  }
}
