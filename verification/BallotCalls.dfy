/** Calls on nodes of src/scp/BallotProtocol.cpp, what each makes of the node it is for, and what a sequence of them
    makes of a network: the calls determine it. */
module BallotCalls {
  import opened Sealing
  import opened Quorum
  import opened Trust
  import opened Ballot
  import opened BallotSafety
  import opened BallotSearch

  /** A call on node n. What it receives from a node of the network is the i-th statement that node has sent; others may
      have sent anything. */
  datatype Call =
    | Receive(n: NodeID, m: NodeID, i: nat, claimed: Envelope)
    | CallBump(n: NodeID, v: Value, counter: nat)
    | CallAcceptPrepared(n: NodeID, hint: Statement)
    | CallConfirmPrepared(n: NodeID, hint: Statement)
    | CallAcceptCommit(n: NodeID, hint: Statement)
    | CallConfirmCommit(n: NodeID, hint: Statement)

  // ---------- the step a call takes ----------

  ghost predicate Acceptable(q: QSet, s: Node, envs: Envelopes, hint: Statement, y: Ballot) {
    IsCandidate(envs, hint, y) && MayAcceptPrepared(s, y) && AcceptsPrepared(q, envs, y)
  }

  ghost predicate IsAccepted(q: QSet, s: Node, envs: Envelopes, hint: Statement, y: Ballot) {
    Acceptable(q, s, envs, hint, y) && forall z :: Acceptable(q, s, envs, hint, z) ==> Leq(z, y)
  }

  ghost predicate IsConfirmed(q: QSet, s: Node, envs: Envelopes, hint: Statement, newC: Option<Ballot>, newH: Ballot) {
    s.phase == PreparePhase && s.p.Some? && IsHigh(q, s, envs, hint, newH) && IsCommitFor(q, s, envs, hint, newH, newC)
  }

  ghost predicate IsCommitted(q: QSet, s: Node, envs: Envelopes, hint: Statement, v: Value, lo: nat, hi: nat) {
    AcceptsHint(s, hint, v) && IsCommitInterval(q, envs, v, lo, hi, false) && lo != 0 &&
    (s.phase == ConfirmPhase ==> hi > s.h.value.n)
  }

  ghost predicate IsExternalized(q: QSet, s: Node, envs: Envelopes, hint: Statement, v: Value, lo: nat, hi: nat) {
    ConfirmsHint(s, hint, v) && IsCommitInterval(q, envs, v, lo, hi, true) && lo != 0
  }

  /** On a node in state s that has heard envs, the call takes that step, or none because there is none to take. */
  ghost predicate Responds(q: QSet, s: Node, envs: Envelopes, call: Call, o: Option<Step>) {
    match call
    case Receive(_, _, _, _) => o.None?
    case CallBump(n, v, counter) =>
      o == if counter != 0 && CanBump(s, v, counter) then Some(Bump(n, v, counter)) else None
    case CallAcceptPrepared(n, hint) =>
      if o.None? then forall y :: !Acceptable(q, s, envs, hint, y)
      else o.value.AcceptPrepared? && o.value == AcceptPrepared(n, o.value.y, envs) &&
           IsAccepted(q, s, envs, hint, o.value.y)
    case CallConfirmPrepared(n, hint) =>
      if o.None? then s.phase == PreparePhase && s.p.Some? ==> forall y :: !IsHigh(q, s, envs, hint, y)
      else o.value.ConfirmPrepared? && o.value == ConfirmPrepared(n, o.value.newC, o.value.newH, envs) &&
           IsConfirmed(q, s, envs, hint, o.value.newC, o.value.newH)
    case CallAcceptCommit(n, hint) =>
      if o.None? then forall v, lo: nat, hi: nat :: !IsCommitted(q, s, envs, hint, v, lo, hi)
      else o.value.AcceptCommit? && o.value == AcceptCommit(n, o.value.v, o.value.lo, o.value.hi, envs) &&
           IsCommitted(q, s, envs, hint, o.value.v, o.value.lo, o.value.hi)
    case CallConfirmCommit(n, hint) =>
      if o.None? then forall v, lo: nat, hi: nat :: !IsExternalized(q, s, envs, hint, v, lo, hi)
      else o.value.ConfirmCommit? && o.value == ConfirmCommit(n, o.value.v, o.value.lo, o.value.hi, envs) &&
           IsExternalized(q, s, envs, hint, o.value.v, o.value.lo, o.value.hi)
  }

  /** The same, to be unfolded on demand. */
  ghost predicate Answers(q: QSet, s: Node, envs: Envelopes, call: Call, o: Option<Step>) {
    forall k :: Seal(Steps, k) ==> Responds(q, s, envs, call, o)
  }

  /** A step taken is for the node called and one that the node may take. */
  lemma AnswerIsStep(q: QSet, s: Node, envs: Envelopes, call: Call, step: Step)
    requires Answers(q, s, envs, call, Some(step))
    ensures step.n == call.n && Guard(q, s, step) && (!step.Bump? ==> step.envs == envs)
  {
    assert Seal(Steps, 0);
    if call.CallConfirmPrepared? { FoundMayConfirm(q, s, envs, call.hint, step.newC, step.newH); }
  }

  lemma ConfirmedOnce(q: QSet, s: Node, envs: Envelopes, hint: Statement, c: Option<Ballot>, h: Ballot,
                      c': Option<Ballot>, h': Ballot)
    requires IsConfirmed(q, s, envs, hint, c, h) && IsConfirmed(q, s, envs, hint, c', h')
    ensures c == c' && h == h'
  {
    HighOnce(q, s, envs, hint, h, h');
    CommitForces(q, s, envs, hint, h, c, c');
    CommitForces(q, s, envs, hint, h, c', c);
  }

  lemma CommitForces(q: QSet, s: Node, envs: Envelopes, hint: Statement, h: Ballot, c: Option<Ballot>,
                     c': Option<Ballot>)
    requires IsCommitFor(q, s, envs, hint, h, c) && IsCommitFor(q, s, envs, hint, h, c')
    ensures c.Some? ==> c' == c
  {
    if c.Some? { LowIsCommit(q, s, envs, hint, h, c', c.value); }
  }

  /** What a call does is determined. */
  lemma AnswersOnce(q: QSet, s: Node, envs: Envelopes, call: Call, o: Option<Step>, o': Option<Step>)
    requires Answers(q, s, envs, call, o) && Answers(q, s, envs, call, o')
    ensures o == o'
  {
    assert Seal(Steps, 0);
    if o.Some? && o'.Some? {
      match call
      case CallConfirmPrepared(_, hint) =>
        ConfirmedOnce(q, s, envs, hint, o.value.newC, o.value.newH, o'.value.newC, o'.value.newH);
      case CallAcceptCommit(_, _) =>
        IntervalOnce(q, envs, o.value.v, o.value.lo, o.value.hi, o'.value.lo, o'.value.hi, false);
      case CallConfirmCommit(_, _) =>
        IntervalOnce(q, envs, o.value.v, o.value.lo, o.value.hi, o'.value.lo, o'.value.hi, true);
      case _ =>
    }
  }

  // ---------- what calls make of a network ----------

  /** The steps taken so far, what each node has sent, which have crashed, what each has heard and where it is. */
  datatype World = World(steps: seq<Step>, sent: map<NodeID, seq<Statement>>, crashed: set<NodeID>,
                         heard: map<NodeID, Envelopes>, now: map<NodeID, Node>)

  ghost predicate Fits(qsets: map<NodeID, QSet>, w: World) {
    w.sent.Keys == w.heard.Keys == w.now.Keys == qsets.Keys
  }

  function NothingSent(qsets: map<NodeID, QSet>): map<NodeID, seq<Statement>> {
    map n | n in qsets :: []
  }

  function NothingHeard(qsets: map<NodeID, QSet>): map<NodeID, Envelopes> {
    map n | n in qsets :: map[]
  }

  function AllNew(qsets: map<NodeID, QSet>): map<NodeID, Node> {
    map n | n in qsets :: NEW_NODE
  }

  function Opening(qsets: map<NodeID, QSet>): World {
    World([], NothingSent(qsets), {}, NothingHeard(qsets), AllNew(qsets))
  }

  /** With one more envelope. */
  function Hearing(envs: Envelopes, m: NodeID, env: Envelope): Envelopes {
    map n: NodeID | n in envs.Keys + {m} :: if n == m then env else envs[n]
  }

  /** `getQuorumSetFromStatement` */
  function Signed(qsets: map<NodeID, QSet>, m: NodeID, st: Statement): Envelope
    requires m in qsets
  {
    Envelope(st, if st.Externalize? then Singleton(m) else qsets[m])
  }

  /** The node takes the step and says what it has become, or crashes for want of something to say. */
  function Recorded(w: World, n: NodeID, step: Step): World
    requires n in w.now && n in w.sent
  {
    var node := After(w.now[n], step);
    if Speaks(node) then
      w.(steps := w.steps + [step], sent := w.sent[n := w.sent[n] + [StatementOf(node)]], now := w.now[n := node])
    else w.(crashed := w.crashed + {n}, now := w.now[n := node])
  }

  function Heard(w: World, n: NodeID, m: NodeID, env: Envelope): World
    requires n in w.heard
  {
    w.(heard := w.heard[n := Hearing(w.heard[n], m, env)])
  }

  /** One call. On a node outside, or one that has crashed, or for a statement that was not sent, it does nothing. */
  ghost predicate Turn(qsets: map<NodeID, QSet>, w: World, call: Call, w': World)
    requires Fits(qsets, w)
  {
    if call.n !in qsets || call.n in w.crashed then w' == w
    else if call.Receive? then
      w' == if call.m !in qsets then Heard(w, call.n, call.m, call.claimed)
            else if call.i < |w.sent[call.m]| then
              Heard(w, call.n, call.m, Signed(qsets, call.m, w.sent[call.m][call.i]))
            else w
    else
      exists o :: Answers(qsets[call.n], w.now[call.n], w.heard[call.n], call, o) &&
                  w' == if o.Some? then Recorded(w, call.n, o.value) else w
  }

  /** The calls one after the other. */
  ghost predicate Turns(qsets: map<NodeID, QSet>, w: World, calls: seq<Call>, w': World)
    requires Fits(qsets, w)
    decreases |calls|
  {
    if calls == [] then w' == w
    else
      exists mid ::
        Fits(qsets, mid) && Turns(qsets, w, calls[..|calls| - 1], mid) && Turn(qsets, mid, calls[|calls| - 1], w')
  }

  /** The same, to be unfolded on demand. */
  ghost predicate Played(qsets: map<NodeID, QSet>, w: World, calls: seq<Call>, w': World) {
    forall k :: Seal(Logs, k) ==> Fits(qsets, w) && Fits(qsets, w') && Turns(qsets, w, calls, w')
  }

  lemma PlayOn(qsets: map<NodeID, QSet>, w: World, calls: seq<Call>, mid: World, call: Call, w': World)
    requires Fits(qsets, mid) && Fits(qsets, w') && Played(qsets, w, calls, mid) && Turn(qsets, mid, call, w')
    ensures Played(qsets, w, calls + [call], w')
  {
    assert Seal(Logs, 0);
    var all := calls + [call];
    assert all[..|all| - 1] == calls && all[|all| - 1] == call;
  }

  lemma TurnOnce(qsets: map<NodeID, QSet>, w: World, call: Call, a: World, b: World)
    requires Fits(qsets, w) && Turn(qsets, w, call, a) && Turn(qsets, w, call, b)
    ensures a == b
  {
    if call.n in qsets && call.n !in w.crashed && !call.Receive? {
      var q, s, envs := qsets[call.n], w.now[call.n], w.heard[call.n];
      var o :| Answers(q, s, envs, call, o) && a == if o.Some? then Recorded(w, call.n, o.value) else w;
      var o' :| Answers(q, s, envs, call, o') && b == if o'.Some? then Recorded(w, call.n, o'.value) else w;
      AnswersOnce(q, s, envs, call, o, o');
    }
  }

  /** The calls determine everything: steps, statements, crashes and states. */
  lemma {:induction false} TurnsOnce(qsets: map<NodeID, QSet>, w: World, calls: seq<Call>, a: World, b: World)
    requires Fits(qsets, w) && Turns(qsets, w, calls, a) && Turns(qsets, w, calls, b)
    ensures a == b
    decreases |calls|
  {
    if calls != [] {
      var rest, last := calls[..|calls| - 1], calls[|calls| - 1];
      var c :| Fits(qsets, c) && Turns(qsets, w, rest, c) && Turn(qsets, c, last, a);
      var d :| Fits(qsets, d) && Turns(qsets, w, rest, d) && Turn(qsets, d, last, b);
      TurnsOnce(qsets, w, rest, c, d);
      TurnOnce(qsets, c, last, a, b);
    }
  }
}
