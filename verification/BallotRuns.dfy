/** Runs of the ballot protocol of src/scp/BallotProtocol.cpp in which the well-behaved nodes go from their first ballot
    to the end. */
module BallotRuns {
  import opened Quorum
  import opened QuorumSets
  import opened Trust
  import opened Ballot
  import opened BallotSafety

  /** A node after so many steps towards externalizing the value. */
  function Stage(v: Value, i: nat): (s: Node)
    requires i <= 5
    ensures Consistent(s) && (s.phase == ExternalizePhase <==> i == 5)
  {
    var b := Some(Ballot(1, v));
    if i == 0 then NEW_NODE
    else if i == 1 then Node(b, None, None, None, None, PreparePhase)
    else if i == 2 then Node(b, b, None, None, None, PreparePhase)
    else Node(b, b, None, b, b, if i == 3 then PreparePhase else if i == 4 then ConfirmPhase else ExternalizePhase)
  }

  /** All it has said by then. */
  function Said(v: Value, i: nat): (h: set<Statement>)
    requires i <= 5
    ensures StatementOf(Stage(v, i)) in h
  {
    (if i == 0 then {} else Said(v, i - 1)) + {StatementOf(Stage(v, i))}
  }

  /** What everyone has said last. */
  function Heard(qsets: map<NodeID, QSet>, v: Value, i: nat): Envelopes
    requires i < 5
  {
    map n | n in qsets :: Envelope(StatementOf(Stage(v, i)), qsets[n])
  }

  function StageStep(qsets: map<NodeID, QSet>, v: Value, i: nat, n: NodeID): Step
    requires i < 5
  {
    var b, envs := Ballot(1, v), Heard(qsets, v, i);
    if i == 0 then Bump(n, v, 1)
    else if i == 1 then AcceptPrepared(n, b, envs)
    else if i == 2 then ConfirmPrepared(n, Some(b), b, envs)
    else if i == 3 then AcceptCommit(n, v, 1, 1, envs)
    else ConfirmCommit(n, v, 1, 1, envs)
  }

  /** The nodes are at one stage, or already at the next. */
  function Round(qsets: map<NodeID, QSet>, v: Value, i: nat, ahead: set<NodeID>): State
    requires i < 5
  {
    map n | n in qsets :: if n in ahead then Peer(Stage(v, i + 1), Said(v, i + 1)) else Peer(Stage(v, i), Said(v, i))
  }

  /** Each of the nodes has a slice among them. */
  ghost predicate Complete(qsets: map<NodeID, QSet>) {
    forall n :: n in qsets ==> Slice(qsets[n], qsets.Keys)
  }

  lemma AllAreQuorum(qsets: map<NodeID, QSet>, v: Value, i: nat, n: NodeID, who: set<NodeID>)
    requires Complete(qsets) && n in qsets && i < 5 && qsets.Keys <= who
    ensures HasQuorum(qsets[n], QSetsOf(Heard(qsets, v, i)), who)
  {
    var u := qsets.Keys;
    assert u <= who && IsQuorumOf(QSetsOf(Heard(qsets, v, i)), u) && Slice(qsets[n], u);
  }

  lemma StageGuard(qsets: map<NodeID, QSet>, v: Value, i: nat, n: NodeID)
    requires Complete(qsets) && n in qsets && i < 5
    ensures var step := StageStep(qsets, v, i, n);
            Guard(qsets[n], Stage(v, i), step) && After(Stage(v, i), step) == Stage(v, i + 1)
  {
    var b, envs := Ballot(1, v), Heard(qsets, v, i);
    if i == 1 {
      AllAreQuorum(qsets, v, i, n, SupportPrepare(envs, b));
    } else if i == 2 {
      AllAreQuorum(qsets, v, i, n, HavePrepared(envs, b));
    } else if i == 3 {
      AllAreQuorum(qsets, v, i, n, SupportCommit(envs, v, 1, 1));
    } else if i == 4 {
      AllAreQuorum(qsets, v, i, n, HaveAccepted(envs, v, 1, 1));
    }
  }

  lemma SaidBefore(qsets: map<NodeID, QSet>, v: Value, i: nat, ahead: set<NodeID>)
    requires i < 5
    ensures Truthful(qsets, Round(qsets, v, i, ahead), Heard(qsets, v, i))
  {
    assert Said(v, i + 1) == Said(v, i) + {StatementOf(Stage(v, i + 1))};
  }

  lemma RoundStep(qsets: map<NodeID, QSet>, v: Value, i: nat, ahead: set<NodeID>, n: NodeID)
    requires Complete(qsets) && n in qsets && n !in ahead && i < 5
    ensures var s, step := Round(qsets, v, i, ahead), StageStep(qsets, v, i, n);
            Enabled(qsets, s, step) && Checked(s, step) && Next(s, step) == Round(qsets, v, i, ahead + {n})
  {
    StageGuard(qsets, v, i, n);
    SaidBefore(qsets, v, i, ahead);
    StepOf(qsets, Round(qsets, v, i, ahead), StageStep(qsets, v, i, n), Stage(v, i + 1));
    RoundOn(qsets, v, i, ahead, n);
  }

  /** With its guard and on true information a node moves on. */
  lemma StepOf(qsets: map<NodeID, QSet>, s: State, step: Step, next: Node)
    requires step.n in s && step.n in qsets && Guard(qsets[step.n], s[step.n].node, step)
    requires After(s[step.n].node, step) == next
    requires Consistent(next) && (!step.Bump? ==> Truthful(qsets, s, step.envs))
    ensures Enabled(qsets, s, step) && Checked(s, step)
    ensures Next(s, step) == s[step.n := Peer(next, s[step.n].hist + {StatementOf(next)})]
  {
  }

  lemma RoundOn(qsets: map<NodeID, QSet>, v: Value, i: nat, ahead: set<NodeID>, n: NodeID)
    requires n in qsets && n !in ahead && i < 5
    ensures Round(qsets, v, i, ahead)[n := Peer(Stage(v, i + 1), Said(v, i) + {StatementOf(Stage(v, i + 1))})] ==
        Round(qsets, v, i, ahead + {n})
  {
    assert Said(v, i + 1) == Said(v, i) + {StatementOf(Stage(v, i + 1))};
  }

  /** A checked run that ends in the given state. */
  ghost predicate Leads(qsets: map<NodeID, QSet>, states: seq<State>, steps: seq<Step>, s: State) {
    IsCheckedRun(qsets, states, steps) && states[|steps|] == s
  }

  lemma LeadsOn(qsets: map<NodeID, QSet>, states: seq<State>, steps: seq<Step>, s: State, step: Step)
    requires Leads(qsets, states, steps, s) && Enabled(qsets, s, step) && Checked(s, step)
    ensures Leads(qsets, states + [Next(s, step)], steps + [step], Next(s, step))
  {
    RunOn(qsets, states, steps, step);
    forall i | 0 <= i < |steps + [step]| ensures Checked((states + [Next(s, step)])[i], (steps + [step])[i]) {
      if i < |steps| { assert Checked(states[i], steps[i]); }
    }
  }

  /** The nodes that are not yet ahead take the step one after the other. */
  lemma {:induction false} FinishRound(qsets: map<NodeID, QSet>, v: Value, i: nat, ahead: set<NodeID>,
                                       states: seq<State>, steps: seq<Step>)
    returns (states': seq<State>, steps': seq<Step>)
    requires Complete(qsets) && i < 5 && Leads(qsets, states, steps, Round(qsets, v, i, ahead))
    ensures Leads(qsets, states', steps', Round(qsets, v, i, qsets.Keys))
    decreases qsets.Keys - ahead
  {
    if n :| n in qsets && n !in ahead {
      RoundStep(qsets, v, i, ahead, n);
      var step := StageStep(qsets, v, i, n);
      LeadsOn(qsets, states, steps, Round(qsets, v, i, ahead), step);
      states', steps' := FinishRound(qsets, v, i, ahead + {n}, states + [Round(qsets, v, i, ahead + {n})],
          steps + [step]);
    } else {
      assert Round(qsets, v, i, ahead) == Round(qsets, v, i, qsets.Keys);
      states', steps' := states, steps;
    }
  }

  lemma {:induction false} ReachStage(qsets: map<NodeID, QSet>, v: Value, i: nat)
    returns (states: seq<State>, steps: seq<Step>)
    requires Complete(qsets) && i < 5
    ensures Leads(qsets, states, steps, Round(qsets, v, i, qsets.Keys))
  {
    if i == 0 {
      states, steps := [Start(qsets)], [];
      assert Said(v, 0) == {StatementOf(NEW_NODE)};
      assert Round(qsets, v, 0, {}) == Start(qsets);
    } else {
      states, steps := ReachStage(qsets, v, i - 1);
      assert Round(qsets, v, i - 1, qsets.Keys) == Round(qsets, v, i, {});
    }
    states, steps := FinishRound(qsets, v, i, {}, states, steps);
  }

  /** Whatever the value, well-behaved nodes that have slices among themselves can all externalize it, without any
      assertion failing and whatever the others do. */
  lemma AllExternalize(qsets: map<NodeID, QSet>, v: Value) returns (states: seq<State>, steps: seq<Step>)
    requires Complete(qsets)
    ensures IsCheckedRun(qsets, states, steps) && states[|steps|].Keys == qsets.Keys
    ensures forall n :: n in qsets ==>
      states[|steps|][n].node.phase == ExternalizePhase && states[|steps|][n].node.c == Some(Ballot(1, v))
  {
    states, steps := ReachStage(qsets, v, 4);
  }

  /** Up to f of 3f + 1 nodes may misbehave: the others are bound to agree, and can. */
  lemma ThirdFaultyRun(qsets: map<NodeID, QSet>, q: QSet, f: nat, v: Value)
    returns (states: seq<State>, steps: seq<Step>)
    requires q.inner == [] && Distinct(q.validators) && |q.validators| == 3 * f + 1 && q.threshold == 2 * f + 1
    requires (forall n :: n in qsets ==> qsets[n] == q) && Faulty(qsets, q.validators) <= f
    ensures Intertwined(qsets) && IsCheckedRun(qsets, states, steps) && states[|steps|].Keys == qsets.Keys
    ensures forall n :: n in qsets ==>
      states[|steps|][n].node.phase == ExternalizePhase && states[|steps|][n].node.c == Some(Ballot(1, v))
  {
    if qsets != map[] { ThirdFaulty(qsets, q, f); }
    FlatMeans(q, qsets.Keys);
    states, steps := AllExternalize(qsets, v);
  }
}
