/** The assertions of `checkInvariants` in src/scp/BallotProtocol.cpp, over whole runs: they hold in all states exactly
    when every ballot confirmed as prepared passes a test made before the step. */
module BallotAsserted {
  import opened Quorum
  import opened Ballot
  import opened BallotSafety

  /** Every node can say what it has become, and is regular. */
  ghost predicate Sturdy(s: State) {
    forall n :: n in s ==> Speaks(s[n].node) && Regular(s[n].node)
  }

  /** In every state of the run the assertions hold of every node. */
  ghost predicate AssertionsHold(states: seq<State>) {
    forall i, n :: 0 <= i < |states| && n in states[i] ==> Asserted(states[i][n].node)
  }

  lemma {:induction false} SturdyReached(qsets: map<NodeID, QSet>, states: seq<State>, steps: seq<Step>, i: nat)
    requires IsRun(qsets, states, steps) && i < |states|
    ensures Sturdy(states[i]) && states[i].Keys == qsets.Keys
    decreases i
  {
    if i > 0 {
      SturdyReached(qsets, states, steps, i - 1);
      var s, step := states[i - 1], steps[i - 1];
      assert Enabled(qsets, s, step) && states[i - 1 + 1] == Next(s, step);
      StepRegular(qsets[step.n], s[step.n].node, step);
    }
  }

  lemma {:induction false} AssertedReached(qsets: map<NodeID, QSet>, states: seq<State>, steps: seq<Step>, i: nat)
    requires IsCheckedRun(qsets, states, steps) && i < |states|
    ensures forall n :: n in states[i] ==> Asserted(states[i][n].node)
    decreases i
  {
    if i > 0 {
      AssertedReached(qsets, states, steps, i - 1);
      SturdyReached(qsets, states, steps, i - 1);
      var s, step := states[i - 1], steps[i - 1];
      assert Enabled(qsets, s, step) && Checked(s, step) && states[i - 1 + 1] == Next(s, step);
      StepConsistent(qsets[step.n], s[step.n].node, step);
    }
  }

  lemma PassedBefore(qsets: map<NodeID, QSet>, states: seq<State>, steps: seq<Step>, i: nat)
    requires IsRun(qsets, states, steps) && AssertionsHold(states) && i < |steps|
    ensures Checked(states[i], steps[i])
  {
    SturdyReached(qsets, states, steps, i);
    SturdyReached(qsets, states, steps, i + 1);
    var s, step := states[i], steps[i];
    assert Enabled(qsets, s, step) && states[i + 1] == Next(s, step);
    assert Asserted(states[i][step.n].node) && Asserted(states[i + 1][step.n].node);
    StepConsistent(qsets[step.n], s[step.n].node, step);
  }

  /** The assertions hold throughout a run exactly when all its steps pass the test. */
  lemma CheckedExactly(qsets: map<NodeID, QSet>, states: seq<State>, steps: seq<Step>)
    requires IsRun(qsets, states, steps)
    ensures IsCheckedRun(qsets, states, steps) <==> AssertionsHold(states)
  {
    if IsCheckedRun(qsets, states, steps) {
      forall i | 0 <= i < |states| ensures forall n :: n in states[i] ==> Asserted(states[i][n].node) {
        AssertedReached(qsets, states, steps, i);
      }
    }
    if AssertionsHold(states) {
      forall i | 0 <= i < |steps| ensures Checked(states[i], steps[i]) { PassedBefore(qsets, states, steps, i); }
    }
  }
}
