/** Nodes of src/scp/BallotProtocol.cpp that hear each other's statements, late, repeatedly or not at all, and whatever
    nodes outside say. Every sequence of calls is a run of the network's model, so what holds of runs holds of the
    objects. */
module BallotCluster {
  import opened Sealing
  import opened Quorum
  import opened Trust
  import opened Ballot
  import opened BallotSafety
  import opened BallotSearch
  import opened BallotCalls
  import opened BallotNode
  import opened BallotExternalize

  // ---------- what has happened ----------

  datatype Log = Log(states: seq<State>, steps: seq<Step>)

  function LastOf(states: seq<State>): State
    requires states != []
  {
    states[|states| - 1]
  }

  /** What has been sent was said by its sender. */
  ghost predicate SentIsSaid(s: State, sent: map<NodeID, seq<Statement>>) {
    s.Keys == sent.Keys && forall n, i :: n in sent && 0 <= i < |sent[n]| ==> sent[n][i] in s[n].hist
  }

  ghost predicate HeardIsTrue(qsets: map<NodeID, QSet>, s: State, heard: map<NodeID, Envelopes>) {
    forall n :: n in heard ==> Truthful(qsets, s, heard[n])
  }

  /** It is a run, and what has been sent and heard was said in it. */
  ghost predicate Logged(qsets: map<NodeID, QSet>, states: seq<State>, steps: seq<Step>,
                         sent: map<NodeID, seq<Statement>>,
                         heard: map<NodeID, Envelopes>)
  {
    sent.Keys == qsets.Keys && states != [] && LastOf(states).Keys == qsets.Keys && forall k :: Seal(Trackers, k) ==>
      IsRun(qsets, states, steps) && SentIsSaid(LastOf(states), sent) && HeardIsTrue(qsets, LastOf(states), heard)
  }

  lemma LoggedRun(qsets: map<NodeID, QSet>, states: seq<State>, steps: seq<Step>, sent: map<NodeID, seq<Statement>>,
                  heard: map<NodeID, Envelopes>)
    requires Logged(qsets, states, steps, sent, heard)
    ensures IsRun(qsets, states, steps)
  {
    assert Seal(Trackers, 0);
  }

  lemma LoggedStart(qsets: map<NodeID, QSet>)
    ensures Logged(qsets, [Start(qsets)], [], NothingSent(qsets), NothingHeard(qsets))
  {
  }

  lemma TruthfulStays(qsets: map<NodeID, QSet>, s: State, step: Step, envs: Envelopes)
    requires Enabled(qsets, s, step) && Truthful(qsets, s, envs)
    ensures Truthful(qsets, Next(s, step), envs)
  {
  }

  /** A step that a node takes on what it has heard continues the run. */
  lemma LoggedStep(qsets: map<NodeID, QSet>, states: seq<State>, steps: seq<Step>, sent: map<NodeID, seq<Statement>>,
                   heard: map<NodeID, Envelopes>, step: Step)
    requires Logged(qsets, states, steps, sent, heard) && step.n in qsets && step.n in heard
    requires var s := LastOf(states)[step.n].node; Guard(qsets[step.n], s, step) && Speaks(After(s, step))
    requires !step.Bump? ==> step.envs == heard[step.n]
    ensures var st := StatementOf(After(LastOf(states)[step.n].node, step));
            Logged(qsets, states + [Next(LastOf(states), step)], steps + [step], sent[step.n := sent[step.n] + [st]],
                heard)
  {
    assert Seal(Trackers, 0);
    var s := LastOf(states);
    assert Enabled(qsets, s, step);
    RunOn(qsets, states, steps, step);
    SentOn(s, sent, step);
    forall n | n in heard ensures Truthful(qsets, Next(s, step), heard[n]) { TruthfulStays(qsets, s, step, heard[n]); }
    assert LastOf(states + [Next(s, step)]) == Next(s, step);
  }

  lemma SentOn(s: State, sent: map<NodeID, seq<Statement>>, step: Step)
    requires SentIsSaid(s, sent) && step.n in s && Speaks(After(s[step.n].node, step))
    ensures SentIsSaid(Next(s, step), sent[step.n := sent[step.n] + [StatementOf(After(s[step.n].node, step))]])
  {
  }

  /** A statement that was sent can be heard, and anything from a node outside. */
  lemma LoggedReceive(qsets: map<NodeID, QSet>, states: seq<State>, steps: seq<Step>, sent: map<NodeID, seq<Statement>>,
                      heard: map<NodeID, Envelopes>, n: NodeID, m: NodeID, env: Envelope)
    requires Logged(qsets, states, steps, sent, heard) && n in heard
    requires m in qsets ==> env.st in sent[m] && env.qset == if env.st.Externalize? then Singleton(m) else qsets[m]
    ensures Logged(qsets, states, steps, sent, heard[n := Hearing(heard[n], m, env)])
  {
    assert Seal(Trackers, 0);
    var s := LastOf(states);
    assert Truthful(qsets, s, heard[n]);
    if m in qsets {
      var i :| 0 <= i < |sent[m]| && sent[m][i] == env.st;
      assert env.st in s[m].hist;
    }
    assert Truthful(qsets, s, Hearing(heard[n], m, env));
  }

  /** All nodes but the crashed ones are where the run has taken them. */
  ghost predicate InStep(s: State, crashed: set<NodeID>, now: map<NodeID, Node>) {
    s.Keys == now.Keys && forall n :: n in now && n !in crashed ==> s[n].node == now[n]
  }

  /** A log that explains the states of the nodes. */
  ghost predicate Explains(qsets: map<NodeID, QSet>, log: Log, sent: map<NodeID, seq<Statement>>, crashed: set<NodeID>,
                           heard: map<NodeID, Envelopes>, now: map<NodeID, Node>)
  {
    heard.Keys == now.Keys == sent.Keys == qsets.Keys && forall k :: Seal(Logs, k) ==>
      Logged(qsets, log.states, log.steps, sent, heard) && InStep(LastOf(log.states), crashed, now)
  }

  lemma InStepNext(s: State, crashed: set<NodeID>, now: map<NodeID, Node>, step: Step)
    requires InStep(s, crashed, now) && step.n in s && step.n !in crashed && Speaks(After(s[step.n].node, step))
    ensures InStep(Next(s, step), crashed, now[step.n := After(now[step.n], step)])
  {
  }

  /** With what it has heard, a node goes from s to t by the step. */
  ghost predicate Took(q: QSet, s: Node, envs: Envelopes, step: Step, t: Node) {
    forall k :: Seal(Steps, k) ==> Guard(q, s, step) && After(s, step) == t && (!step.Bump? ==> step.envs == envs)
  }

  lemma TookIsAfter(q: QSet, s: Node, envs: Envelopes, step: Step, t: Node)
    requires Took(q, s, envs, step, t)
    ensures After(s, step) == t
  {
    assert Seal(Steps, 0);
  }

  /** A node that has taken a step says so. */
  lemma ExplainsStep(qsets: map<NodeID, QSet>, log: Log, sent: map<NodeID, seq<Statement>>, crashed: set<NodeID>,
                     heard: map<NodeID, Envelopes>, now: map<NodeID, Node>, step: Step, node: Node)
    returns (next: Log)
    requires Explains(qsets, log, sent, crashed, heard, now) && step.n in qsets && step.n !in crashed
    requires Took(qsets[step.n], now[step.n], heard[step.n], step, node) && Speaks(node)
    ensures Explains(qsets, next, sent[step.n := sent[step.n] + [StatementOf(node)]], crashed, heard,
        now[step.n := node])
    ensures next.steps == log.steps + [step]
  {
    assert Seal(Steps, 0) && Seal(Logs, 0);
    LoggedStep(qsets, log.states, log.steps, sent, heard, step);
    next := Log(log.states + [Next(LastOf(log.states), step)], log.steps + [step]);
    InStepNext(LastOf(log.states), crashed, now, step);
    assert LastOf(next.states) == Next(LastOf(log.states), step);
  }

  lemma ExplainsStart(qsets: map<NodeID, QSet>)
    ensures Explains(qsets, Log([Start(qsets)], []), NothingSent(qsets), {}, NothingHeard(qsets), AllNew(qsets))
  {
    LoggedStart(qsets);
  }

  /** A node that has crashed needs no explanation. */
  lemma ExplainsCrash(qsets: map<NodeID, QSet>, log: Log, sent: map<NodeID, seq<Statement>>, crashed: set<NodeID>,
                      heard: map<NodeID, Envelopes>, now: map<NodeID, Node>, n: NodeID, node: Node)
    requires Explains(qsets, log, sent, crashed, heard, now) && n in qsets
    ensures Explains(qsets, log, sent, crashed + {n}, heard, now[n := node])
  {
    assert Seal(Logs, 0);
  }

  lemma ExplainsReceive(qsets: map<NodeID, QSet>, log: Log, sent: map<NodeID, seq<Statement>>, crashed: set<NodeID>,
                        heard: map<NodeID, Envelopes>, now: map<NodeID, Node>, n: NodeID, m: NodeID, env: Envelope)
    requires Explains(qsets, log, sent, crashed, heard, now) && n in qsets
    requires m in qsets ==> env.st in sent[m] && env.qset == if env.st.Externalize? then Singleton(m) else qsets[m]
    ensures Explains(qsets, log, sent, crashed, heard[n := Hearing(heard[n], m, env)], now)
  {
    assert Seal(Logs, 0);
    LoggedReceive(qsets, log.states, log.steps, sent, heard, n, m, env);
  }

  /** The run behind the nodes. */
  lemma ExplainsRun(qsets: map<NodeID, QSet>, log: Log, sent: map<NodeID, seq<Statement>>, crashed: set<NodeID>,
                    heard: map<NodeID, Envelopes>, now: map<NodeID, Node>)
    requires Explains(qsets, log, sent, crashed, heard, now)
    ensures IsRun(qsets, log.states, log.steps) && InStep(LastOf(log.states), crashed, now)
  {
    assert Seal(Logs, 0);
    LoggedRun(qsets, log.states, log.steps, sent, heard);
  }

  lemma ExplainsSpeaks(qsets: map<NodeID, QSet>, log: Log, sent: map<NodeID, seq<Statement>>, crashed: set<NodeID>,
                       heard: map<NodeID, Envelopes>, now: map<NodeID, Node>, n: NodeID)
    requires Explains(qsets, log, sent, crashed, heard, now) && n in qsets && n !in crashed
    ensures Speaks(now[n])
  {
    ExplainsRun(qsets, log, sent, crashed, heard, now);
    BoundReached(qsets, log.states, log.steps, |log.steps|);
    assert Settled(LastOf(log.states)[n]);
  }

  /** What is externalized in it is one value. */
  lemma ExplainsAgree(qsets: map<NodeID, QSet>, log: Log, sent: map<NodeID, seq<Statement>>, crashed: set<NodeID>,
                      heard: map<NodeID, Envelopes>, now: map<NodeID, Node>, m: NodeID, n: NodeID)
    requires Intertwined(qsets) && Explains(qsets, log, sent, crashed, heard, now) && m in qsets && n in qsets
    requires m !in crashed && n !in crashed
    requires now[m].phase == ExternalizePhase && now[n].phase == ExternalizePhase
    ensures now[m].c.Some? && now[n].c.Some? && now[m].c.value.x == now[n].c.value.x
  {
    ExplainsRun(qsets, log, sent, crashed, heard, now);
    ExternalizedAgree(qsets, log.states, log.steps, |log.steps|, |log.steps|, m, n);
  }

  // ---------- the objects ----------

  /** One object for each of the quorum sets. */
  method MakeNodes(qsets: map<NodeID, QSet>) returns (nodes: map<NodeID, BallotProtocol>)
    ensures nodes.Keys == qsets.Keys && (forall n :: n in nodes ==> fresh(nodes[n]) && nodes[n].qset == qsets[n])
    ensures forall m, n :: m in nodes && n in nodes && m != n ==> nodes[m] != nodes[n]
    ensures forall n :: n in nodes ==> nodes[n].Value() == NEW_NODE && nodes[n].latestEnvelopes == map[]
  {
    nodes := map[];
    var left := qsets.Keys;
    while left != {}
      invariant left <= qsets.Keys && nodes.Keys == qsets.Keys - left
      invariant forall n :: n in nodes ==> fresh(nodes[n]) && nodes[n].qset == qsets[n]
      invariant forall m, n :: m in nodes && n in nodes && m != n ==> nodes[m] != nodes[n]
      invariant forall n :: n in nodes ==> nodes[n].Value() == NEW_NODE && nodes[n].latestEnvelopes == map[]
      decreases left
    {
      var n :| n in left;
      var node := new BallotProtocol(qsets[n]);
      nodes := nodes[n := node];
      left := left - {n};
    }
  }

  /** The call on the node's object. If it does anything, that is a step on what the node has heard. */
  method Attempt(node: BallotProtocol, call: Call) returns (didWork: bool, ghost step: Step)
    requires Speaks(node.Value())
    modifies node
    ensures node.latestEnvelopes == old(node.latestEnvelopes)
    ensures Answers(node.qset, old(node.Value()), node.latestEnvelopes, call, if didWork then Some(step) else None)
    ensures didWork ==> step.n == call.n && Took(node.qset, old(node.Value()), node.latestEnvelopes, step, node.Value())
    ensures !didWork ==> node.Value() == old(node.Value())
  {
    didWork, step := false, Bump(0, 0, 0);
    ghost var y, z, v, lo, hi;
    match call
    case Receive(_, _, _, _) =>
    case CallBump(n, value, counter) =>
      if counter != 0 {
        didWork := node.BumpState(value, counter);
        step := Bump(n, value, counter);
      }
    case CallAcceptPrepared(n, hint) =>
      didWork, y := node.AttemptPreparedAccept(hint);
      step := AcceptPrepared(n, y, node.latestEnvelopes);
    case CallConfirmPrepared(n, hint) =>
      didWork, z, y := node.AttemptPreparedConfirmed(hint);
      step := ConfirmPrepared(n, z, y, node.latestEnvelopes);
    case CallAcceptCommit(n, hint) =>
      didWork, v, lo, hi := node.AttemptAcceptCommit(hint);
      step := AcceptCommit(n, v, lo, hi, node.latestEnvelopes);
    case CallConfirmCommit(n, hint) =>
      didWork, v, lo, hi := node.AttemptConfirmCommit(hint);
      step := ConfirmCommit(n, v, lo, hi, node.latestEnvelopes);
  }

  class Cluster {
    const qsets: map<NodeID, QSet>
    const nodes: map<NodeID, BallotProtocol>
    /** What each node has sent. */
    var sent: map<NodeID, seq<Statement>>
    /** Nodes that failed to build a statement. */
    var crashed: set<NodeID>
    ghost var log: Log
    ghost var heard: map<NodeID, Envelopes>
    ghost var now: map<NodeID, Node>

    ghost predicate Wired() {
      nodes.Keys == qsets.Keys && (forall n :: n in nodes ==> nodes[n].qset == qsets[n]) &&
      forall m, n :: m in nodes && n in nodes && m != n ==> nodes[m] != nodes[n]
    }

    /** The object of node n holds what it has heard and is in its state. */
    ghost predicate Linked(n: NodeID)
      reads this, nodes.Values
    {
      n in nodes && n in heard && n in now && nodes[n].latestEnvelopes == heard[n] && nodes[n].Value() == now[n]
    }

    /** What the calls so far have made of the network. */
    ghost function Scene(): World
      reads this
    {
      World(log.steps, sent, crashed, heard, now)
    }

    ghost predicate Valid()
      reads this, nodes.Values
    {
      Wired() && (forall n :: n in nodes ==> Linked(n)) && Explains(qsets, log, sent, crashed, heard, now)
    }

    constructor (qsets: map<NodeID, QSet>, nodes: map<NodeID, BallotProtocol>)
      requires nodes.Keys == qsets.Keys && (forall n :: n in nodes ==> nodes[n].qset == qsets[n])
      requires forall m, n :: m in nodes && n in nodes && m != n ==> nodes[m] != nodes[n]
      requires forall n :: n in nodes ==> nodes[n].Value() == NEW_NODE && nodes[n].latestEnvelopes == map[]
      ensures Valid() && this.qsets == qsets && this.nodes == nodes && Scene() == Opening(qsets)
    {
      this.qsets := qsets;
      this.nodes := nodes;
      sent := NothingSent(qsets);
      crashed := {};
      log := Log([Start(qsets)], []);
      heard := NothingHeard(qsets);
      now := AllNew(qsets);
      ExplainsStart(qsets);
      new;
      assert forall n :: n in this.nodes ==> Linked(n);
    }

    ghost predicate Externalized(n: NodeID)
      reads this, nodes.Values
    {
      n in nodes && n !in crashed && nodes[n].phase == ExternalizePhase
    }

    /** Those that have externalized a value have externalized the same. */
    ghost predicate OneOutcome()
      reads this, nodes.Values
    {
      forall m, n :: Externalized(m) && Externalized(n) ==>
        nodes[m].commit.Some? && nodes[n].commit.Some? && nodes[m].commit.value.x == nodes[n].commit.value.x
    }

    /** What has happened is a run, and the nodes that have not crashed are where it has taken them. */
    ghost predicate FollowsRun()
      reads this, nodes.Values
    {
      IsRun(qsets, log.states, log.steps) &&
      forall n :: n in nodes && n !in crashed ==>
          n in LastOf(log.states) && LastOf(log.states)[n].node == nodes[n].Value()
    }

    lemma Outcome()
      requires Valid()
      ensures FollowsRun() && (Intertwined(qsets) ==> OneOutcome())
    {
      ExplainsRun(qsets, log, sent, crashed, heard, now);
      forall n | n in nodes && n !in crashed
        ensures n in LastOf(log.states) && LastOf(log.states)[n].node == nodes[n].Value()
      {
        assert Linked(n);
      }
      forall m, n | Intertwined(qsets) && Externalized(m) && Externalized(n)
        ensures nodes[m].commit.Some? && nodes[n].commit.Some? && nodes[m].commit.value.x == nodes[n].commit.value.x
      {
        assert Linked(m) && Linked(n);
        ExplainsAgree(qsets, log, sent, crashed, heard, now, m, n);
      }
    }

    /** After node n has taken the step, it says what it has become. */
    method Record(n: NodeID, ghost step: Step)
      requires n in nodes && n in qsets && n !in crashed && step.n == n
      requires Explains(qsets, log, sent, crashed, heard, now)
      requires Took(qsets[n], now[n], heard[n], step, nodes[n].Value())
      modifies this`sent, this`crashed, this`log, this`now
      ensures Explains(qsets, log, sent, crashed, heard, now) && now == old(now)[n := nodes[n].Value()]
      ensures Scene() == Recorded(old(Scene()), n, step)
    {
      TookIsAfter(qsets[n], now[n], heard[n], step, nodes[n].Value());
      var value := nodes[n].Value();
      if Speaks(value) {
        log := ExplainsStep(qsets, log, sent, crashed, heard, now, step, value);
        sent := sent[n := sent[n] + [StatementOf(value)]];
      } else {
        ExplainsCrash(qsets, log, sent, crashed, heard, now, n, value);
        crashed := crashed + {n};
      }
      now := now[n := value];
    }

    /** What is done to the object of one node leaves the others as they are. */
    twostate lemma OthersLinked(n: NodeID)
      requires Wired() && n in nodes && (forall m :: m in nodes ==> old(Linked(m))) && Linked(n)
      requires forall m :: m in nodes && m != n ==> unchanged(nodes[m])
      requires old(heard).Keys == heard.Keys == nodes.Keys && old(now).Keys == now.Keys == nodes.Keys
      requires forall m :: m in nodes && m != n ==> heard[m] == old(heard)[m] && now[m] == old(now)[m]
      ensures forall m :: m in nodes ==> Linked(m)
    {
      forall m | m in nodes && m != n ensures Linked(m) { assert old(Linked(m)); }
    }

    /** The node hears the statement. */
    method Hear(n: NodeID, m: NodeID, env: Envelope)
      requires n in nodes && n in qsets && Linked(n) && Explains(qsets, log, sent, crashed, heard, now)
      requires m in qsets ==> env.st in sent[m] && env.qset == if env.st.Externalize? then Singleton(m) else qsets[m]
      modifies this`heard, nodes[n]
      ensures Linked(n) && Explains(qsets, log, sent, crashed, heard, now)
      ensures forall k :: k in qsets && k != n ==> heard[k] == old(heard)[k]
      ensures Scene() == Heard(old(Scene()), n, m, env)
    {
      ExplainsReceive(qsets, log, sent, crashed, heard, now, n, m, env);
      nodes[n].latestEnvelopes := Hearing(nodes[n].latestEnvelopes, m, env);
      heard := heard[n := Hearing(heard[n], m, env)];
    }

    /** The node attempts what the call says. */
    method Advance(n: NodeID, call: Call)
      requires n in nodes && n in qsets && nodes[n].qset == qsets[n] && n !in crashed && call.n == n
      requires Linked(n) && Explains(qsets, log, sent, crashed, heard, now)
      modifies this`sent, this`crashed, this`log, this`now, nodes[n]
      ensures Linked(n) && Explains(qsets, log, sent, crashed, heard, now)
      ensures forall m :: m in qsets && m != n ==> now[m] == old(now)[m]
      ensures !call.Receive? ==> Turn(qsets, old(Scene()), call, Scene())
    {
      ExplainsSpeaks(qsets, log, sent, crashed, heard, now, n);
      var didWork;
      ghost var step;
      didWork, step := Attempt(nodes[n], call);
      if didWork {
        Record(n, step);
      }
    }

    method TakeReceive(call: Call)
      requires Valid() && call.Receive? && call.n in nodes && call.n !in crashed
      modifies this`heard, nodes[call.n]
      ensures Valid() && Turn(qsets, old(Scene()), call, Scene())
    {
      var n, m := call.n, call.m;
      if m !in qsets {
        Hear(n, m, call.claimed);
        OthersLinked(n);
      } else if call.i < |sent[m]| {
        Hear(n, m, Signed(qsets, m, sent[m][call.i]));
        OthersLinked(n);
      }
    }

    method TakeAttempt(call: Call)
      requires Valid() && !call.Receive? && call.n in nodes && call.n !in crashed
      modifies this`sent, this`crashed, this`log, this`now, nodes[call.n]
      ensures Valid() && Turn(qsets, old(Scene()), call, Scene())
    {
      Advance(call.n, call);
      assert now.Keys == nodes.Keys;
      OthersLinked(call.n);
    }

    /** Any call. */
    method Take(call: Call)
      requires Valid()
      modifies this, nodes.Values
      ensures Valid() && Turn(qsets, old(Scene()), call, Scene())
    {
      if call.n in nodes && call.n !in crashed {
        if call.Receive? {
          TakeReceive(call);
        } else {
          TakeAttempt(call);
        }
      }
    }

    /** Any calls, one after the other. */
    method TakeAll(calls: seq<Call>)
      requires Valid()
      modifies this, nodes.Values
      ensures Valid() && Played(qsets, old(Scene()), calls, Scene())
    {
      ghost var start := Scene();
      for i := 0 to |calls|
        invariant Valid() && Played(qsets, start, calls[..i], Scene())
      {
        TakeNext(start, calls[..i], calls[i]);
        assert calls[..i + 1] == calls[..i] + [calls[i]];
      }
      assert calls[..|calls|] == calls;
    }

    method TakeNext(ghost start: World, ghost done: seq<Call>, call: Call)
      requires Valid() && Played(qsets, start, done, Scene())
      modifies this, nodes.Values
      ensures Valid() && Played(qsets, start, done + [call], Scene())
    {
      ghost var before := Scene();
      Take(call);
      PlayOn(qsets, start, done, before, call, Scene());
    }
  }

  /** Whatever calls are made on the nodes of a cluster, in whatever order, the steps they take, one for each call that
      finds one on a node that can still speak, are those of a run. */
  method Play(qsets: map<NodeID, QSet>, calls: seq<Call>) returns (cluster: Cluster)
    ensures cluster.qsets == qsets && cluster.nodes.Keys == qsets.Keys
    ensures Turns(qsets, Opening(qsets), calls, cluster.Scene())
    ensures cluster.FollowsRun() && (Intertwined(qsets) ==> cluster.OneOutcome())
  {
    var nodes := MakeNodes(qsets);
    cluster := new Cluster(qsets, nodes);
    cluster.TakeAll(calls);
    assert Seal(Logs, 0);
    cluster.Outcome();
  }
}
