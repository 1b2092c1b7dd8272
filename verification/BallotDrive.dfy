/** Calls on the objects of a network that take it, by the attempts of src/scp/BallotProtocol.cpp, from the first ballot
    to the end. */
module BallotDrive {
  import opened Sealing
  import opened Quorum
  import opened Ballot
  import opened BallotSafety
  import opened BallotSearch
  import opened BallotCalls
  import opened BallotNode
  import opened BallotCluster
  import Runs = BallotRuns

  // ---------- what each attempt finds ----------

  function Hint(v: Value, i: nat): Statement
    requires i <= 5
  {
    StatementOf(Runs.Stage(v, i))
  }

  function StageCall(v: Value, i: nat, n: NodeID): Call
    requires i < 5
  {
    if i == 0 then CallBump(n, v, 1)
    else if i == 1 then CallAcceptPrepared(n, Hint(v, 1))
    else if i == 2 then CallConfirmPrepared(n, Hint(v, 2))
    else if i == 3 then CallAcceptCommit(n, Hint(v, 3))
    else CallConfirmCommit(n, Hint(v, 4))
  }

  /** While ballots are prepared there is one candidate. */
  lemma OnlyCandidate(qsets: map<NodeID, QSet>, v: Value, i: nat, n: NodeID, y: Ballot)
    requires n in qsets && 1 <= i <= 2
    ensures IsCandidate(Runs.Heard(qsets, v, i), Hint(v, i), y) <==> y == Ballot(1, v)
  {
    var envs, b, tops := Runs.Heard(qsets, v, i), Ballot(1, v), HintBallots(Hint(v, i));
    assert forall k :: 0 <= k < |tops| ==> tops[k] == b;
    assert forall m :: m in envs ==> envs[m].st == Hint(v, i);
    assert Suggested(b, Hint(v, i))[0] == b;
    assert n in envs && b in Suggested(tops[0], envs[n].st);
    assert SuggestedUpTo(envs, tops[0], b);
  }

  /** Afterwards there is one boundary. */
  lemma OnlyBoundary(qsets: map<NodeID, QSet>, v: Value, i: nat, n: NodeID, k: nat)
    requires n in qsets && 3 <= i <= 4
    ensures IsBoundary(Runs.Heard(qsets, v, i), v, k) <==> k == 1
  {
    var envs := Runs.Heard(qsets, v, i);
    assert BoundariesOf(v, Hint(v, i)) == [1, 1];
    assert forall m :: m in envs ==> envs[m].st == Hint(v, i);
    assert n in envs;
  }

  lemma FindsAccepted(qsets: map<NodeID, QSet>, v: Value, n: NodeID)
    requires Runs.Complete(qsets) && n in qsets
    ensures IsAccepted(qsets[n], Runs.Stage(v, 1), Runs.Heard(qsets, v, 1), Hint(v, 1), Ballot(1, v))
  {
    Runs.StageGuard(qsets, v, 1, n);
    forall y ensures IsCandidate(Runs.Heard(qsets, v, 1), Hint(v, 1), y) <==> y == Ballot(1, v) {
      OnlyCandidate(qsets, v, 1, n, y);
    }
  }

  lemma FindsConfirmed(qsets: map<NodeID, QSet>, v: Value, n: NodeID)
    requires Runs.Complete(qsets) && n in qsets
    ensures IsConfirmed(qsets[n], Runs.Stage(v, 2), Runs.Heard(qsets, v, 2), Hint(v, 2), Some(Ballot(1, v)),
                        Ballot(1, v))
  {
    Runs.StageGuard(qsets, v, 2, n);
    var q, s, envs, b := qsets[n], Runs.Stage(v, 2), Runs.Heard(qsets, v, 2), Ballot(1, v);
    forall y ensures IsCandidate(envs, Hint(v, 2), y) <==> y == b { OnlyCandidate(qsets, v, 2, n, y); }
    assert IsHigh(q, s, envs, Hint(v, 2), b);
    assert Unbroken(q, s, envs, Hint(v, 2), b, b);
  }

  lemma FindsInterval(qsets: map<NodeID, QSet>, v: Value, i: nat, n: NodeID)
    requires Runs.Complete(qsets) && n in qsets && 3 <= i <= 4
    ensures IsCommitInterval(qsets[n], Runs.Heard(qsets, v, i), v, 1, 1, i == 4)
  {
    Runs.StageGuard(qsets, v, i, n);
    forall k: nat ensures IsBoundary(Runs.Heard(qsets, v, i), v, k) <==> k == 1 { OnlyBoundary(qsets, v, i, n, k); }
  }

  lemma FindsCommitted(qsets: map<NodeID, QSet>, v: Value, n: NodeID)
    requires Runs.Complete(qsets) && n in qsets
    ensures IsCommitted(qsets[n], Runs.Stage(v, 3), Runs.Heard(qsets, v, 3), Hint(v, 3), v, 1, 1)
  {
    FindsInterval(qsets, v, 3, n);
  }

  lemma FindsExternalized(qsets: map<NodeID, QSet>, v: Value, n: NodeID)
    requires Runs.Complete(qsets) && n in qsets
    ensures IsExternalized(qsets[n], Runs.Stage(v, 4), Runs.Heard(qsets, v, 4), Hint(v, 4), v, 1, 1)
  {
    FindsInterval(qsets, v, 4, n);
  }

  /** At every stage the call finds the step to the next. */
  lemma StageAnswers(qsets: map<NodeID, QSet>, v: Value, i: nat, n: NodeID, envs: Envelopes)
    requires Runs.Complete(qsets) && n in qsets && i < 5 && (i > 0 ==> envs == Runs.Heard(qsets, v, i))
    ensures Answers(qsets[n], Runs.Stage(v, i), envs, StageCall(v, i, n), Some(Runs.StageStep(qsets, v, i, n)))
  {
    if i == 1 {
      FindsAccepted(qsets, v, n);
    } else if i == 2 {
      FindsConfirmed(qsets, v, n);
    } else if i == 3 {
      FindsCommitted(qsets, v, n);
    } else if i == 4 {
      FindsExternalized(qsets, v, n);
    }
  }

  // ---------- round by round ----------

  /** What a node has sent by the stage. */
  function Spoken(v: Value, i: nat): (s: seq<Statement>)
    requires i <= 5
    ensures |s| == i
  {
    if i == 0 then [] else Spoken(v, i - 1) + [Hint(v, i)]
  }

  lemma SpokenLast(v: Value, i: nat, k: nat)
    requires 1 <= i <= k <= 5 && k <= i + 1
    ensures Spoken(v, k)[i - 1] == Hint(v, i)
  {
    assert Spoken(v, i)[i - 1] == Hint(v, i);
  }

  function StageOf(i: nat, ahead: set<NodeID>, n: NodeID): nat {
    if n in ahead then i + 1 else i
  }

  ghost predicate NodeAt(v: Value, k: nat, now: Node, sent: seq<Statement>) {
    k <= 5 && now == Runs.Stage(v, k) && sent == Spoken(v, k)
  }

  /** The nodes are at stage i, or already at the next. */
  ghost predicate InRound(v: Value, i: nat, ahead: set<NodeID>, now: map<NodeID, Node>,
                          sent: map<NodeID, seq<Statement>>)
  {
    now.Keys == sent.Keys && forall n :: n in now ==> NodeAt(v, StageOf(i, ahead, n), now[n], sent[n])
  }

  /** They have heard from each other only. */
  ghost predicate Inside(heard: map<NodeID, Envelopes>) {
    forall n :: n in heard ==> heard[n].Keys <= heard.Keys
  }

  /** The same, to be unfolded on demand; and nobody has crashed. */
  ghost predicate AtRound(qsets: map<NodeID, QSet>, v: Value, i: nat, ahead: set<NodeID>, w: World) {
    i < 5 && Fits(qsets, w) && w.crashed == {} && forall k :: Seal(Rounds, k) ==>
      InRound(v, i, ahead, w.now, w.sent) && Inside(w.heard)
  }

  function Fetch(n: NodeID, m: NodeID, i: nat): Call
    requires i > 0
  {
    Receive(n, m, i - 1, Envelope(Externalize(Ballot(0, 0), 0), QSet(1, [m], [])))
  }

  /** Node n has heard from these what they said at stage i. */
  ghost predicate HeardFrom(qsets: map<NodeID, QSet>, v: Value, i: nat, envs: Envelopes, from: set<NodeID>)
    requires i < 5
  {
    forall m :: m in from && m in qsets ==> m in envs && envs[m] == Envelope(Hint(v, i), qsets[m])
  }

  lemma InsideOn(heard: map<NodeID, Envelopes>, n: NodeID, m: NodeID, env: Envelope)
    requires Inside(heard) && n in heard && m in heard
    ensures Inside(heard[n := Hearing(heard[n], m, env)])
  {
  }

  lemma FetchGives(qsets: map<NodeID, QSet>, v: Value, i: nat, ahead: set<NodeID>, w: World, n: NodeID, m: NodeID,
                   w': World)
    requires AtRound(qsets, v, i, ahead, w) && n in qsets && m in qsets && i > 0
    requires Turn(qsets, w, Fetch(n, m, i), w')
    ensures w' == BallotCalls.Heard(w, n, m, Envelope(Hint(v, i), qsets[m]))
  {
    assert Seal(Rounds, 0);
    assert NodeAt(v, StageOf(i, ahead, m), w.now[m], w.sent[m]);
    SpokenLast(v, i, StageOf(i, ahead, m));
    NotYet(v, i);
  }

  lemma StillAtRound(qsets: map<NodeID, QSet>, v: Value, i: nat, ahead: set<NodeID>, w: World, n: NodeID, m: NodeID,
                     env: Envelope)
    requires AtRound(qsets, v, i, ahead, w) && n in qsets && m in qsets
    ensures AtRound(qsets, v, i, ahead, BallotCalls.Heard(w, n, m, env))
  {
    assert Seal(Rounds, 0);
    InsideOn(w.heard, n, m, env);
  }

  lemma HeardMore(qsets: map<NodeID, QSet>, v: Value, i: nat, envs: Envelopes, from: set<NodeID>, m: NodeID)
    requires i < 5 && m in qsets && HeardFrom(qsets, v, i, envs, from)
    ensures HeardFrom(qsets, v, i, Hearing(envs, m, Envelope(Hint(v, i), qsets[m])), from + {m})
  {
  }

  lemma FetchTurn(qsets: map<NodeID, QSet>, v: Value, i: nat, ahead: set<NodeID>, w: World, n: NodeID, m: NodeID,
                  from: set<NodeID>, w': World)
    requires AtRound(qsets, v, i, ahead, w) && n in qsets && m in qsets && i > 0
    requires Turn(qsets, w, Fetch(n, m, i), w') && HeardFrom(qsets, v, i, w.heard[n], from)
    ensures AtRound(qsets, v, i, ahead, w') && HeardFrom(qsets, v, i, w'.heard[n], from + {m})
  {
    FetchGives(qsets, v, i, ahead, w, n, m, w');
    StillAtRound(qsets, v, i, ahead, w, n, m, Envelope(Hint(v, i), qsets[m]));
    HeardMore(qsets, v, i, w.heard[n], from, m);
  }

  lemma NotYet(v: Value, i: nat)
    requires i < 5
    ensures !Hint(v, i).Externalize?
  {
  }

  lemma AllInside(qsets: map<NodeID, QSet>, v: Value, i: nat, ahead: set<NodeID>, w: World, n: NodeID)
    requires AtRound(qsets, v, i, ahead, w) && n in qsets
    ensures w.heard[n].Keys <= qsets.Keys
  {
    assert Seal(Rounds, 0);
  }

  lemma HeardAll(qsets: map<NodeID, QSet>, v: Value, i: nat, envs: Envelopes)
    requires i < 5 && HeardFrom(qsets, v, i, envs, qsets.Keys) && envs.Keys <= qsets.Keys
    ensures envs == Runs.Heard(qsets, v, i)
  {
  }

  lemma StageNow(qsets: map<NodeID, QSet>, v: Value, i: nat, ahead: set<NodeID>, w: World, n: NodeID)
    requires AtRound(qsets, v, i, ahead, w) && n in qsets && n !in ahead
    ensures w.now[n] == Runs.Stage(v, i)
  {
    assert Seal(Rounds, 0);
    assert NodeAt(v, StageOf(i, ahead, n), w.now[n], w.sent[n]);
  }

  /** A call whose answer is known. */
  lemma TurnTakes(qsets: map<NodeID, QSet>, w: World, call: Call, step: Step, w': World)
    requires Fits(qsets, w) && call.n in qsets && call.n !in w.crashed && !call.Receive?
    requires Answers(qsets[call.n], w.now[call.n], w.heard[call.n], call, Some(step)) && Turn(qsets, w, call, w')
    ensures w' == Recorded(w, call.n, step)
  {
    var q, s, envs := qsets[call.n], w.now[call.n], w.heard[call.n];
    var o :| Answers(q, s, envs, call, o) && w' == if o.Some? then Recorded(w, call.n, o.value) else w;
    AnswersOnce(q, s, envs, call, o, Some(step));
  }

  lemma StageTurn(qsets: map<NodeID, QSet>, v: Value, i: nat, ahead: set<NodeID>, w: World, n: NodeID, w': World)
    requires Runs.Complete(qsets) && AtRound(qsets, v, i, ahead, w) && n in qsets && n !in ahead
    requires i > 0 ==> w.heard[n] == Runs.Heard(qsets, v, i)
    requires Turn(qsets, w, StageCall(v, i, n), w')
    ensures AtRound(qsets, v, i, ahead + {n}, w')
  {
    StageNow(qsets, v, i, ahead, w, n);
    StageAnswers(qsets, v, i, n, w.heard[n]);
    StageIsNext(qsets, v, i, n);
    TurnTakes(qsets, w, StageCall(v, i, n), Runs.StageStep(qsets, v, i, n), w');
    RecordedAt(qsets, v, i, ahead, w, n, Runs.StageStep(qsets, v, i, n), Runs.Stage(v, i + 1));
  }

  lemma StageIsNext(qsets: map<NodeID, QSet>, v: Value, i: nat, n: NodeID)
    requires Runs.Complete(qsets) && n in qsets && i < 5
    ensures After(Runs.Stage(v, i), Runs.StageStep(qsets, v, i, n)) == Runs.Stage(v, i + 1)
    ensures Speaks(Runs.Stage(v, i + 1)) && Spoken(v, i + 1) == Spoken(v, i) + [StatementOf(Runs.Stage(v, i + 1))]
    ensures StageCall(v, i, n).n == n && !StageCall(v, i, n).Receive?
  {
    Runs.StageGuard(qsets, v, i, n);
  }

  lemma RecordedAt(qsets: map<NodeID, QSet>, v: Value, i: nat, ahead: set<NodeID>, w: World, n: NodeID, step: Step,
                   node: Node)
    requires AtRound(qsets, v, i, ahead, w) && n in qsets && n !in ahead && After(w.now[n], step) == node
    requires Speaks(node) && node == Runs.Stage(v, i + 1) && Spoken(v, i + 1) == Spoken(v, i) + [StatementOf(node)]
    ensures AtRound(qsets, v, i, ahead + {n}, Recorded(w, n, step))
  {
    assert Seal(Rounds, 0);
    assert NodeAt(v, StageOf(i, ahead, n), w.now[n], w.sent[n]);
    InRoundOn(v, i, ahead, w.now, w.sent, n, node, w.sent[n] + [StatementOf(node)]);
  }

  lemma InRoundOn(v: Value, i: nat, ahead: set<NodeID>, now: map<NodeID, Node>, sent: map<NodeID, seq<Statement>>,
                  n: NodeID, node: Node, said: seq<Statement>)
    requires InRound(v, i, ahead, now, sent) && n in now && NodeAt(v, i + 1, node, said)
    ensures InRound(v, i, ahead + {n}, now[n := node], sent[n := said])
  {
  }

  lemma NextRound(qsets: map<NodeID, QSet>, v: Value, i: nat, w: World)
    requires AtRound(qsets, v, i, qsets.Keys, w) && i < 4
    ensures AtRound(qsets, v, i + 1, {}, w)
  {
    assert Seal(Rounds, 0);
    forall n | n in w.now ensures NodeAt(v, StageOf(i + 1, {}, n), w.now[n], w.sent[n]) {
      assert NodeAt(v, StageOf(i, qsets.Keys, n), w.now[n], w.sent[n]);
    }
  }

  lemma FirstRound(qsets: map<NodeID, QSet>, v: Value)
    ensures AtRound(qsets, v, 0, {}, Opening(qsets))
  {
    assert Spoken(v, 0) == [] && Runs.Stage(v, 0) == NEW_NODE;
  }

  lemma LastRound(qsets: map<NodeID, QSet>, v: Value, w: World, n: NodeID)
    requires AtRound(qsets, v, 4, qsets.Keys, w) && n in qsets
    ensures w.now[n].phase == ExternalizePhase && w.now[n].c == Some(Ballot(1, v))
  {
    assert Seal(Rounds, 0);
    assert NodeAt(v, StageOf(4, qsets.Keys, n), w.now[n], w.sent[n]);
  }

  // ---------- the calls ----------

  /** A call, and the calls so far. */
  method Make(cluster: Cluster, ghost done: seq<Call>, call: Call)
    requires cluster.Valid() && Played(cluster.qsets, Opening(cluster.qsets), done, cluster.Scene())
    modifies cluster, cluster.nodes.Values
    ensures cluster.Valid() && Turn(cluster.qsets, old(cluster.Scene()), call, cluster.Scene())
    ensures Played(cluster.qsets, Opening(cluster.qsets), done + [call], cluster.Scene())
  {
    ghost var before := cluster.Scene();
    cluster.Take(call);
    PlayOn(cluster.qsets, Opening(cluster.qsets), done, before, call, cluster.Scene());
  }

  /** The calls have brought the network to the round. To be unfolded on demand. */
  ghost predicate Driven(cluster: Cluster, v: Value, i: nat, ahead: set<NodeID>, done: seq<Call>)
    reads cluster, cluster.nodes.Values
  {
    forall k :: Seal(Cycles, k) ==>
      cluster.Valid() && AtRound(cluster.qsets, v, i, ahead, cluster.Scene()) &&
      Played(cluster.qsets, Opening(cluster.qsets), done, cluster.Scene())
  }

  /** Moving one over from those that are left. */
  lemma OneOver(all: set<NodeID>, left: set<NodeID>, n: NodeID)
    requires left <= all && n in left
    ensures (all - left) + {n} == all - (left - {n})
  {
  }

  /** The same while node n listens, having heard these. */
  ghost predicate Listens(cluster: Cluster, v: Value, i: nat, ahead: set<NodeID>, done: seq<Call>, n: NodeID,
                          from: set<NodeID>)
    reads cluster, cluster.nodes.Values
  {
    i < 5 && forall k :: Seal(Cycles, k) ==>
      n in cluster.qsets && Driven(cluster, v, i, ahead, done) && n in cluster.heard &&
      HeardFrom(cluster.qsets, v, i, cluster.heard[n], from)
  }

  lemma ListensToNone(cluster: Cluster, v: Value, i: nat, ahead: set<NodeID>, done: seq<Call>, n: NodeID)
    requires Driven(cluster, v, i, ahead, done) && n in cluster.qsets && i < 5
    ensures Listens(cluster, v, i, ahead, done, n, {})
  {
    assert Seal(Cycles, 0);
  }

  lemma ListensToAll(cluster: Cluster, v: Value, i: nat, ahead: set<NodeID>, done: seq<Call>, n: NodeID)
    requires Listens(cluster, v, i, ahead, done, n, cluster.qsets.Keys)
    ensures Driven(cluster, v, i, ahead, done) && n in cluster.heard
    ensures cluster.heard[n] == Runs.Heard(cluster.qsets, v, i)
  {
    assert Seal(Cycles, 0);
    AllInside(cluster.qsets, v, i, ahead, cluster.Scene(), n);
    HeardAll(cluster.qsets, v, i, cluster.heard[n]);
  }

  /** Node n hears what m said at stage i. */
  method HearOne(cluster: Cluster, v: Value, i: nat, n: NodeID, m: NodeID, ghost ahead: set<NodeID>,
                 ghost done: seq<Call>, ghost from: set<NodeID>)
    requires Listens(cluster, v, i, ahead, done, n, from) && m in cluster.qsets && i > 0
    modifies cluster, cluster.nodes.Values
    ensures Listens(cluster, v, i, ahead, done + [Fetch(n, m, i)], n, from + {m})
  {
    assert Seal(Cycles, 0);
    ghost var before := cluster.Scene();
    Make(cluster, done, Fetch(n, m, i));
    FetchTurn(cluster.qsets, v, i, ahead, before, n, m, from, cluster.Scene());
  }

  /** What everyone said. */
  method HearEveryone(cluster: Cluster, v: Value, i: nat, n: NodeID, ghost ahead: set<NodeID>, ghost done: seq<Call>)
    returns (ghost done': seq<Call>)
    requires Driven(cluster, v, i, ahead, done) && n in cluster.qsets && 0 < i < 5
    modifies cluster, cluster.nodes.Values
    ensures Driven(cluster, v, i, ahead, done') && n in cluster.heard
    ensures cluster.heard[n] == Runs.Heard(cluster.qsets, v, i)
  {
    done' := done;
    var left := cluster.qsets.Keys;
    ghost var from := {};
    ListensToNone(cluster, v, i, ahead, done, n);
    while left != {}
      invariant left <= cluster.qsets.Keys && from == cluster.qsets.Keys - left
      invariant Listens(cluster, v, i, ahead, done', n, from)
      decreases left
    {
      var m :| m in left;
      HearOne(cluster, v, i, n, m, ahead, done', from);
      done' := done' + [Fetch(n, m, i)];
      OneOver(cluster.qsets.Keys, left, m);
      from, left := from + {m}, left - {m};
    }
    assert from == cluster.qsets.Keys;
    ListensToAll(cluster, v, i, ahead, done', n);
  }

  /** Node n goes from stage i to the next. */
  method MoveOn(cluster: Cluster, v: Value, i: nat, n: NodeID, ghost ahead: set<NodeID>, ghost done: seq<Call>)
    returns (ghost done': seq<Call>)
    requires Runs.Complete(cluster.qsets) && Driven(cluster, v, i, ahead, done)
    requires n in cluster.qsets && n !in ahead && i < 5
    modifies cluster, cluster.nodes.Values
    ensures Driven(cluster, v, i, ahead + {n}, done')
  {
    done' := done;
    if i > 0 {
      done' := HearEveryone(cluster, v, i, n, ahead, done);
    }
    assert Seal(Cycles, 0);
    ghost var before := cluster.Scene();
    Make(cluster, done', StageCall(v, i, n));
    done' := done' + [StageCall(v, i, n)];
    StageTurn(cluster.qsets, v, i, ahead, before, n, cluster.Scene());
  }

  /** All nodes do. */
  method PlayRound(cluster: Cluster, v: Value, i: nat, ghost done: seq<Call>) returns (ghost done': seq<Call>)
    requires Runs.Complete(cluster.qsets) && Driven(cluster, v, i, {}, done) && i < 5
    modifies cluster, cluster.nodes.Values
    ensures Driven(cluster, v, i, cluster.qsets.Keys, done')
  {
    done' := done;
    var left := cluster.qsets.Keys;
    ghost var ahead := {};
    while left != {}
      invariant left <= cluster.qsets.Keys && ahead == cluster.qsets.Keys - left
      invariant Driven(cluster, v, i, ahead, done')
      decreases left
    {
      var n :| n in left;
      done' := MoveOn(cluster, v, i, n, ahead, done');
      OneOver(cluster.qsets.Keys, left, n);
      ahead, left := ahead + {n}, left - {n};
    }
    assert ahead == cluster.qsets.Keys;
  }

  /** On to the next round. */
  lemma DrivenOn(cluster: Cluster, v: Value, i: nat, done: seq<Call>)
    requires Driven(cluster, v, i, cluster.qsets.Keys, done) && i < 4
    ensures Driven(cluster, v, i + 1, {}, done)
  {
    assert Seal(Cycles, 0);
    NextRound(cluster.qsets, v, i, cluster.Scene());
  }

  lemma DrivenStart(cluster: Cluster, v: Value)
    requires cluster.Valid() && cluster.Scene() == Opening(cluster.qsets)
    ensures Driven(cluster, v, 0, {}, [])
  {
    FirstRound(cluster.qsets, v);
  }

  lemma DrivenEnd(cluster: Cluster, v: Value, done: seq<Call>)
    requires Driven(cluster, v, 4, cluster.qsets.Keys, done)
    ensures cluster.nodes.Keys == cluster.qsets.Keys && cluster.crashed == {} && cluster.FollowsRun()
    ensures Turns(cluster.qsets, Opening(cluster.qsets), done, cluster.Scene())
    ensures forall n :: n in cluster.qsets ==>
              cluster.nodes[n].phase == ExternalizePhase && cluster.nodes[n].commit == Some(Ballot(1, v))
  {
    assert Seal(Cycles, 0);
    forall n | n in cluster.qsets
      ensures cluster.nodes[n].phase == ExternalizePhase && cluster.nodes[n].commit == Some(Ballot(1, v))
    {
      assert cluster.Linked(n);
      LastRound(cluster.qsets, v, cluster.Scene(), n);
    }
    cluster.Outcome();
    assert Seal(Logs, 0);
  }

  /** Whatever the value, nodes that have slices among themselves all externalize it, by calls on their objects. */
  method ExternalizeAll(qsets: map<NodeID, QSet>, v: Value) returns (cluster: Cluster, ghost calls: seq<Call>)
    requires Runs.Complete(qsets)
    ensures cluster.qsets == qsets && cluster.nodes.Keys == qsets.Keys && cluster.crashed == {}
    ensures Turns(qsets, Opening(qsets), calls, cluster.Scene()) && cluster.FollowsRun()
    ensures forall n :: n in qsets ==>
              cluster.nodes[n].phase == ExternalizePhase && cluster.nodes[n].commit == Some(Ballot(1, v))
  {
    var nodes := MakeNodes(qsets);
    cluster := new Cluster(qsets, nodes);
    calls := [];
    DrivenStart(cluster, v);
    for i := 0 to 5
      invariant cluster.qsets == qsets && cluster.nodes == nodes
      invariant if i < 5 then Driven(cluster, v, i, {}, calls) else Driven(cluster, v, 4, qsets.Keys, calls)
    {
      calls := PlayRound(cluster, v, i, calls);
      if i < 4 { DrivenOn(cluster, v, i, calls); }
    }
    DrivenEnd(cluster, v, calls);
  }
}
