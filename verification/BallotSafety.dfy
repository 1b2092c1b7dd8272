/** Agreement of the ballot protocol of src/scp/BallotProtocol.cpp, over all runs of a network in which some nodes
    behave arbitrarily: well-behaved nodes never commit to different values. */
module BallotSafety {
  import opened Sealing
  import opened Quorum
  import opened Trust
  import opened Ballot

  // ---------- a network ----------

  /** A well-behaved node, and every statement it has made. */
  datatype Peer = Peer(node: Node, hist: set<Statement>)

  type State = map<NodeID, Peer>

  datatype Envelope = Envelope(st: Statement, qset: QSet)

  type Envelopes = map<NodeID, Envelope>

  /** What a well-behaved node is taken to have said it has said, if perhaps long ago; `getQuorumSetFromStatement`. */
  ghost predicate Truthful(qsets: map<NodeID, QSet>, s: State, envs: Envelopes) {
    forall m :: m in envs && m in qsets ==>
      m in s && envs[m].st in s[m].hist && envs[m].qset == (if envs[m].st.Externalize? then Singleton(m) else qsets[m])
  }

  function QSetsOf(envs: Envelopes): map<NodeID, QSet> {
    map n | n in envs :: envs[n].qset
  }

  function HavePrepared(envs: Envelopes, y: Ballot): set<NodeID> {
    set n | n in envs && HasPrepared(y, envs[n].st)
  }

  function SupportPrepare(envs: Envelopes, y: Ballot): set<NodeID> {
    set n | n in envs && (HasPrepared(y, envs[n].st) || VotesPrepare(y, envs[n].st))
  }

  function HaveAccepted(envs: Envelopes, v: Value, lo: nat, hi: nat): set<NodeID> {
    set n | n in envs && AcceptsCommit(v, lo, hi, envs[n].st)
  }

  function SupportCommit(envs: Envelopes, v: Value, lo: nat, hi: nat): set<NodeID> {
    set n | n in envs && (AcceptsCommit(v, lo, hi, envs[n].st) || VotesCommit(v, lo, hi, envs[n].st))
  }

  /** `federatedAccept` that a ballot is prepared. */
  ghost predicate AcceptsPrepared(q: QSet, envs: Envelopes, y: Ballot) {
    Blocked(q, HavePrepared(envs, y)) || HasQuorum(q, QSetsOf(envs), SupportPrepare(envs, y))
  }

  /** `federatedRatify` of the same. */
  ghost predicate RatifiesPrepared(q: QSet, envs: Envelopes, y: Ballot) {
    HasQuorum(q, QSetsOf(envs), HavePrepared(envs, y))
  }

  /** `federatedAccept` of a commit. */
  ghost predicate AcceptsCommitted(q: QSet, envs: Envelopes, v: Value, lo: nat, hi: nat) {
    Blocked(q, HaveAccepted(envs, v, lo, hi)) || HasQuorum(q, QSetsOf(envs), SupportCommit(envs, v, lo, hi))
  }

  ghost predicate RatifiesCommitted(q: QSet, envs: Envelopes, v: Value, lo: nat, hi: nat) {
    HasQuorum(q, QSetsOf(envs), HaveAccepted(envs, v, lo, hi))
  }

  // ---------- runs ----------

  datatype Step =
    | Bump(n: NodeID, v: Value, counter: nat)
    | AcceptPrepared(n: NodeID, y: Ballot, envs: Envelopes)
    | ConfirmPrepared(n: NodeID, newC: Option<Ballot>, newH: Ballot, envs: Envelopes)
    | AcceptCommit(n: NodeID, v: Value, lo: nat, hi: nat, envs: Envelopes)
    | ConfirmCommit(n: NodeID, v: Value, lo: nat, hi: nat, envs: Envelopes)

  /** When the attempts of the source find a step to take. */
  ghost predicate Guard(q: QSet, s: Node, step: Step) {
    match step
    case Bump(_, v, counter) => counter != 0 && CanBump(s, v, counter)
    case AcceptPrepared(_, y, envs) => MayAcceptPrepared(s, y) && AcceptsPrepared(q, envs, y)
    case ConfirmPrepared(_, newC, newH, envs) =>
      MayConfirmPrepared(s, newC, newH) && RatifiesPrepared(q, envs, newH) &&
      (newC.Some? ==> RatifiesPrepared(q, envs, newC.value))
    case AcceptCommit(_, v, lo, hi, envs) => MayAcceptCommit(s, v, lo, hi) && AcceptsCommitted(q, envs, v, lo, hi)
    case ConfirmCommit(_, v, lo, hi, envs) => MayConfirmCommit(s, v, lo, hi) && RatifiesCommitted(q, envs, v, lo, hi)
  }

  function After(s: Node, step: Step): Node {
    match step
    case Bump(_, v, counter) => Bumped(s, v, counter)
    case AcceptPrepared(_, y, _) => PreparedAccepted(s, y)
    case ConfirmPrepared(_, newC, newH, _) => PreparedConfirmed(s, newC, newH)
    case AcceptCommit(_, v, lo, hi, _) => CommitAccepted(s, v, lo, hi)
    case ConfirmCommit(_, v, lo, hi, _) => CommitConfirmed(s, v, lo, hi)
  }

  /** A node takes a step on true information and says what it has become. */
  ghost predicate Enabled(qsets: map<NodeID, QSet>, s: State, step: Step) {
    step.n in qsets && step.n in s && Guard(qsets[step.n], s[step.n].node, step) &&
    (!step.Bump? ==> Truthful(qsets, s, step.envs)) &&
    Speaks(After(s[step.n].node, step))
  }

  function Next(s: State, step: Step): State
    requires step.n in s && Speaks(After(s[step.n].node, step))
  {
    var node := After(s[step.n].node, step);
    s[step.n := Peer(node, s[step.n].hist + {StatementOf(node)})]
  }

  /** A test made before the step: a ballot confirmed as prepared has the value of the commit that goes with it, and a
      counter if it becomes the node's first ballot. */
  predicate Agrees(s: Node, step: Step) {
    step.ConfirmPrepared? ==>
      (CommitAfter(s, step.newC).Some? ==> CommitAfter(s, step.newC).value.x == step.newH.x) &&
      (s.b.None? ==> step.newH.n != 0)
  }

  ghost predicate Checked(s: State, step: Step) {
    step.n in s && Agrees(s[step.n].node, step)
  }

  /** What is not asserted is kept anyway. */
  lemma StepRegular(q: QSet, s: Node, step: Step)
    requires Guard(q, s, step) && Regular(s) && Speaks(s) && Speaks(After(s, step))
    ensures Regular(After(s, step))
  {
  }

  /** The assertions hold after a step exactly when the test before it is passed; steps other than confirming a ballot
      as prepared cannot fail them. */
  lemma StepConsistent(q: QSet, s: Node, step: Step)
    requires Guard(q, s, step) && Consistent(s) && Speaks(After(s, step))
    ensures Consistent(After(s, step)) <==> Agrees(s, step)
  {
    match step
    case Bump(_, v, counter) => BumpConsistent(s, v, counter);
    case AcceptPrepared(_, y, _) => AcceptConsistent(s, y);
    case ConfirmPrepared(_, newC, newH, _) => ConfirmConsistent(s, newC, newH);
    case AcceptCommit(_, v, lo, hi, _) => CommitConsistent(s, v, lo, hi);
    case ConfirmCommit(_, v, lo, hi, _) => ExternalizeConsistent(s, v, lo, hi);
  }

  function Start(qsets: map<NodeID, QSet>): State {
    map n | n in qsets :: Peer(NEW_NODE, {StatementOf(NEW_NODE)})
  }

  ghost predicate IsRun(qsets: map<NodeID, QSet>, states: seq<State>, steps: seq<Step>) {
    |states| == |steps| + 1 && states[0] == Start(qsets) &&
    forall i :: 0 <= i < |steps| ==> Enabled(qsets, states[i], steps[i]) && states[i + 1] == Next(states[i], steps[i])
  }

  /** A step that can be taken continues a run. */
  lemma RunOn(qsets: map<NodeID, QSet>, states: seq<State>, steps: seq<Step>, step: Step)
    requires IsRun(qsets, states, steps) && Enabled(qsets, states[|steps|], step)
    ensures IsRun(qsets, states + [Next(states[|steps|], step)], steps + [step])
  {
    var states', steps' := states + [Next(states[|steps|], step)], steps + [step];
    forall i | 0 <= i < |steps'|
      ensures Enabled(qsets, states'[i], steps'[i]) && states'[i + 1] == Next(states'[i], steps'[i])
    {
      if i < |steps| { assert Enabled(qsets, states[i], steps[i]) && states[i + 1] == Next(states[i], steps[i]); }
    }
  }

  /** A run in which every ballot confirmed as prepared passes the test. */
  ghost predicate IsCheckedRun(qsets: map<NodeID, QSet>, states: seq<State>, steps: seq<Step>) {
    IsRun(qsets, states, steps) && forall i :: 0 <= i < |steps| ==> Checked(states[i], steps[i])
  }

  // ---------- votes ----------

  /** A vote to commit the ballot, before any commit is accepted. */
  predicate CommitVote(x: Ballot, st: Statement) {
    st.Prepare? && VotesCommit(x.x, x.n, x.n, st)
  }

  /** A vote to prepare something above the ballot that is incompatible with it, which aborts it. */
  predicate AbortVote(x: Ballot, st: Statement) {
    match st
    case Prepare(b, _, _, _, _) => LessAndIncompatible(x, b)
    case Confirm(b, _, _, _) => x.x != b.x
    case Externalize(commit, _) => x.x != commit.x
  }

  ghost predicate VotedFor(hist: set<Statement>, x: Ballot) {
    exists st :: st in hist && CommitVote(x, st)
  }

  ghost predicate VotedAgainst(hist: set<Statement>, x: Ballot) {
    (exists st :: st in hist && AbortVote(x, st)) && !VotedFor(hist, x)
  }

  ghost predicate AllFor(qsets: map<NodeID, QSet>, s: State, u: set<NodeID>, x: Ballot) {
    forall m :: m in u && m in qsets ==> m in s && VotedFor(s[m].hist, x)
  }

  ghost predicate AllAgainst(qsets: map<NodeID, QSet>, s: State, u: set<NodeID>, x: Ballot) {
    forall m :: m in u && m in qsets ==> m in s && VotedAgainst(s[m].hist, x)
  }

  /** A quorum voted to commit the ballot, or to abort it. */
  ghost predicate BackedCommit(qsets: map<NodeID, QSet>, s: State, x: Ballot) {
    exists n, u :: QuorumFor(qsets, n, u) && AllFor(qsets, s, u, x)
  }

  ghost predicate BackedAbort(qsets: map<NodeID, QSet>, s: State, x: Ballot) {
    exists n, u :: QuorumFor(qsets, n, u) && AllAgainst(qsets, s, u, x)
  }

  /** Everything below the ballot that is incompatible with it is aborted. */
  ghost predicate Prepared(qsets: map<NodeID, QSet>, s: State, y: Ballot) {
    forall z :: LessAndIncompatible(z, y) ==> BackedAbort(qsets, s, z)
  }

  ghost predicate SaidCommitted(hist: set<Statement>, v: Value) {
    exists st :: st in hist && Committed(v, st)
  }

  ghost predicate AllCommitted(qsets: map<NodeID, QSet>, s: State, u: set<NodeID>, v: Value) {
    forall m :: m in u && m in qsets ==> m in s && SaidCommitted(s[m].hist, v)
  }

  /** A quorum has accepted a commit of the value. */
  ghost predicate Agreed(qsets: map<NodeID, QSet>, s: State, v: Value) {
    exists n, u :: QuorumFor(qsets, n, u) && AllCommitted(qsets, s, u, v)
  }

  ghost predicate SomeCommit(qsets: map<NodeID, QSet>, s: State, v: Value) {
    exists k: nat :: BackedCommit(qsets, s, Ballot(k, v))
  }

  /** No ballot is both committed and aborted. */
  lemma NotBoth(qsets: map<NodeID, QSet>, s: State, x: Ballot)
    requires Intertwined(qsets) && BackedCommit(qsets, s, x)
    ensures !BackedAbort(qsets, s, x)
  {
    var n, u :| QuorumFor(qsets, n, u) && AllFor(qsets, s, u, x);
    forall k, w | QuorumFor(qsets, k, w) ensures !AllAgainst(qsets, s, w, x) {
      var m := CommonMember(qsets, n, k, u, w);
      assert VotedFor(s[m].hist, x);
    }
  }

  // ---------- the invariant ----------

  /** What a statement of a well-behaved node commits the network to. */
  ghost predicate Sound(qsets: map<NodeID, QSet>, s: State, hist: set<Statement>, st: Statement) {
    (forall y :: HasPrepared(y, st) ==> Prepared(qsets, s, y)) &&
    (forall x :: CommitVote(x, st) ==> Prepared(qsets, s, x)) &&
    (forall x :: AbortVote(x, st) && VotedFor(hist, x) ==> BackedAbort(qsets, s, x)) &&
    (forall v :: Committed(v, st) ==> SomeCommit(qsets, s, v)) &&
    (st.Externalize? ==> Agreed(qsets, s, st.commit.x))
  }

  /** In the first phase ballots only grow, and the commit voted for now is above everything voted for with other
      values. */
  ghost predicate Orderly(qsets: map<NodeID, QSet>, s: State, w: Peer) {
    Consistent(w.node) && StatementOf(w.node) in w.hist &&
    (w.node.phase == PreparePhase ==>
       (forall st :: st in w.hist ==> st.Prepare? && Leq(st.ballot, StatementOf(w.node).ballot)) &&
       (w.node.c.Some? ==> forall st :: st in w.hist ==>
           st.ballot.x == w.node.c.value.x || Leq(st.ballot, w.node.c.value)) &&
       (forall x :: VotedFor(w.hist, x) ==>
          (w.node.c.Some? && LessAndCompatible(x, w.node.h.value)) || BackedAbort(qsets, s, x)))
  }

  ghost predicate AllSound(qsets: map<NodeID, QSet>, s: State, hist: set<Statement>) {
    forall st :: st in hist ==> Sound(qsets, s, hist, st)
  }

  ghost predicate PeerInv(qsets: map<NodeID, QSet>, s: State, w: Peer) {
    Orderly(qsets, s, w) && AllSound(qsets, s, w.hist)
  }

  ghost predicate Inv(qsets: map<NodeID, QSet>, s: State) {
    s.Keys == qsets.Keys && forall k :: Seal(Outcomes, k) ==> forall m :: m in s ==> PeerInv(qsets, s, s[m])
  }

  lemma PeerOf(qsets: map<NodeID, QSet>, s: State, m: NodeID)
    requires Inv(qsets, s) && m in s
    ensures PeerInv(qsets, s, s[m])
  {
    assert Seal(Outcomes, 0);
  }

  lemma SoundOf(qsets: map<NodeID, QSet>, s: State, m: NodeID, st: Statement)
    requires Inv(qsets, s) && m in s && st in s[m].hist
    ensures Sound(qsets, s, s[m].hist, st)
  {
    PeerOf(qsets, s, m);
  }

  // ---------- votes are kept ----------

  /** From s to t nothing is unsaid, and no node votes for what it voted against. */
  ghost predicate Grows(qsets: map<NodeID, QSet>, s: State, t: State) {
    s.Keys == t.Keys == qsets.Keys && (forall m :: m in s ==> s[m].hist <= t[m].hist) &&
    forall m, x :: m in s && VotedAgainst(s[m].hist, x) ==> VotedAgainst(t[m].hist, x)
  }

  lemma AbortStays(qsets: map<NodeID, QSet>, s: State, t: State, x: Ballot)
    requires Grows(qsets, s, t) && BackedAbort(qsets, s, x)
    ensures BackedAbort(qsets, t, x)
  {
    var n, u :| QuorumFor(qsets, n, u) && AllAgainst(qsets, s, u, x);
    assert AllAgainst(qsets, t, u, x);
  }

  lemma CommitStays(qsets: map<NodeID, QSet>, s: State, t: State, v: Value)
    requires Grows(qsets, s, t) && SomeCommit(qsets, s, v)
    ensures SomeCommit(qsets, t, v)
  {
    var k: nat :| BackedCommit(qsets, s, Ballot(k, v));
    var n, u :| QuorumFor(qsets, n, u) && AllFor(qsets, s, u, Ballot(k, v));
    assert AllFor(qsets, t, u, Ballot(k, v));
    assert BackedCommit(qsets, t, Ballot(k, v));
  }

  lemma AgreedStays(qsets: map<NodeID, QSet>, s: State, t: State, v: Value)
    requires Grows(qsets, s, t) && Agreed(qsets, s, v)
    ensures Agreed(qsets, t, v)
  {
    var n, u :| QuorumFor(qsets, n, u) && AllCommitted(qsets, s, u, v);
    assert AllCommitted(qsets, t, u, v);
  }

  lemma PreparedStays(qsets: map<NodeID, QSet>, s: State, t: State, y: Ballot)
    requires Grows(qsets, s, t) && Prepared(qsets, s, y)
    ensures Prepared(qsets, t, y)
  {
    forall z | LessAndIncompatible(z, y) ensures BackedAbort(qsets, t, z) { AbortStays(qsets, s, t, z); }
  }

  /** Preparing a ballot prepares everything compatible below it. */
  lemma PreparedBelow(qsets: map<NodeID, QSet>, s: State, y: Ballot, x: Ballot)
    requires Prepared(qsets, s, y) && LessAndCompatible(x, y)
    ensures Prepared(qsets, s, x)
  {
    forall z | LessAndIncompatible(z, x) ensures BackedAbort(qsets, s, z) { assert LessAndIncompatible(z, y); }
  }

  /** Statements stay sound in a state that has grown, if what is voted for in addition has no vote against it. */
  lemma SoundStays(qsets: map<NodeID, QSet>, s: State, t: State, hist: set<Statement>, now: set<Statement>,
                   st: Statement)
    requires Grows(qsets, s, t) && Sound(qsets, s, hist, st)
    requires forall x :: AbortVote(x, st) && VotedFor(now, x) ==> VotedFor(hist, x)
    ensures Sound(qsets, t, now, st)
  {
    forall y | HasPrepared(y, st) ensures Prepared(qsets, t, y) { PreparedStays(qsets, s, t, y); }
    forall x | CommitVote(x, st) ensures Prepared(qsets, t, x) { PreparedStays(qsets, s, t, x); }
    forall x | AbortVote(x, st) && VotedFor(now, x) ensures BackedAbort(qsets, t, x) { AbortStays(qsets, s, t, x); }
    forall v | Committed(v, st) ensures SomeCommit(qsets, t, v) { CommitStays(qsets, s, t, v); }
    if st.Externalize? { AgreedStays(qsets, s, t, st.commit.x); }
  }

  lemma OrderlyStays(qsets: map<NodeID, QSet>, s: State, t: State, w: Peer)
    requires Grows(qsets, s, t) && Orderly(qsets, s, w)
    ensures Orderly(qsets, t, w)
  {
    forall x | VotedFor(w.hist, x) && BackedAbort(qsets, s, x)
      ensures BackedAbort(qsets, t, x)
    {
      AbortStays(qsets, s, t, x);
    }
  }

  lemma PeerStays(qsets: map<NodeID, QSet>, s: State, t: State, w: Peer)
    requires Grows(qsets, s, t) && PeerInv(qsets, s, w)
    ensures PeerInv(qsets, t, w)
  {
    OrderlyStays(qsets, s, t, w);
    forall st | st in w.hist ensures Sound(qsets, t, w.hist, st) { SoundStays(qsets, s, t, w.hist, w.hist, st); }
  }

  // ---------- what federated voting finds ----------

  lemma Says(qsets: map<NodeID, QSet>, s: State, envs: Envelopes, m: NodeID)
    requires Inv(qsets, s) && Truthful(qsets, s, envs) && m in envs && m in qsets
    ensures m in s && envs[m].st in s[m].hist && Sound(qsets, s, s[m].hist, envs[m].st)
    ensures QSetsOf(envs)[m] == if envs[m].st.Externalize? then Singleton(m) else qsets[m]
  {
    SoundOf(qsets, s, m, envs[m].st);
  }

  /** If a quorum votes against x, or a member that voted for it knows it is aborted, it is aborted. */
  lemma AgainstIsAbort(qsets: map<NodeID, QSet>, s: State, n: NodeID, u: set<NodeID>, x: Ballot)
    requires Inv(qsets, s) && QuorumFor(qsets, n, u)
    requires forall m :: m in u && m in qsets ==> exists st :: st in s[m].hist && AbortVote(x, st)
    ensures BackedAbort(qsets, s, x)
  {
    if exists m :: m in u && m in qsets && VotedFor(s[m].hist, x) {
      var m :| m in u && m in qsets && VotedFor(s[m].hist, x);
      var st :| st in s[m].hist && AbortVote(x, st);
      SoundOf(qsets, s, m, st);
    } else {
      assert AllAgainst(qsets, s, u, x);
    }
  }

  /** A quorum committed to a value aborts everything else. */
  lemma AgreedAborts(qsets: map<NodeID, QSet>, s: State, v: Value, x: Ballot)
    requires Inv(qsets, s) && Agreed(qsets, s, v) && x.x != v
    ensures BackedAbort(qsets, s, x)
  {
    var n, u :| QuorumFor(qsets, n, u) && AllCommitted(qsets, s, u, v);
    forall m | m in u && m in qsets ensures exists st :: st in s[m].hist && AbortVote(x, st) {
      var st :| st in s[m].hist && Committed(v, st);
      assert AbortVote(x, st);
    }
    AgainstIsAbort(qsets, s, n, u, x);
  }

  /** A ballot accepted as prepared is prepared. */
  lemma AcceptedIsPrepared(qsets: map<NodeID, QSet>, s: State, n: NodeID, envs: Envelopes, y: Ballot)
    requires Intertwined(qsets) && Inv(qsets, s) && Truthful(qsets, s, envs) && n in qsets
    requires AcceptsPrepared(qsets[n], envs, y)
    ensures Prepared(qsets, s, y)
  {
    if Blocked(qsets[n], HavePrepared(envs, y)) {
      var m := BlockedByGood(qsets, n, HavePrepared(envs, y));
      Says(qsets, s, envs, m);
    } else {
      var u :| u <= SupportPrepare(envs, y) && IsQuorumOf(QSetsOf(envs), u) && Slice(qsets[n], u);
      QuorumPrepares(qsets, s, n, envs, y, u);
    }
  }

  lemma QuorumPrepares(qsets: map<NodeID, QSet>, s: State, n: NodeID, envs: Envelopes, y: Ballot, u: set<NodeID>)
    requires Intertwined(qsets) && Inv(qsets, s) && Truthful(qsets, s, envs) && n in qsets
    requires u <= SupportPrepare(envs, y) && IsQuorumOf(QSetsOf(envs), u) && Slice(qsets[n], u)
    ensures Prepared(qsets, s, y)
  {
    if exists m :: m in u && m in qsets && HasPrepared(y, envs[m].st) {
      var m :| m in u && m in qsets && HasPrepared(y, envs[m].st);
      Says(qsets, s, envs, m);
    } else {
      forall m | m in u && m in qsets
        ensures Slice(qsets[m], u) && VotesPrepare(y, envs[m].st) && envs[m].st in s[m].hist
      {
        assert m in SupportPrepare(envs, y);
        Says(qsets, s, envs, m);
      }
      assert QuorumFor(qsets, n, u);
      forall z | LessAndIncompatible(z, y)
        ensures BackedAbort(qsets, s, z)
      {
        QuorumAborts(qsets, s, n, envs, y, u, z);
      }
    }
  }

  lemma QuorumAborts(qsets: map<NodeID, QSet>, s: State, n: NodeID, envs: Envelopes, y: Ballot, u: set<NodeID>,
                     z: Ballot)
    requires Inv(qsets, s) && QuorumFor(qsets, n, u) && LessAndIncompatible(z, y)
    requires forall m :: m in u && m in qsets ==> m in envs && VotesPrepare(y, envs[m].st) && envs[m].st in s[m].hist
    ensures BackedAbort(qsets, s, z)
  {
    forall m | m in u && m in qsets ensures exists st :: st in s[m].hist && AbortVote(z, st) {
      assert AbortVote(z, envs[m].st);
    }
    AgainstIsAbort(qsets, s, n, u, z);
  }

  /** So is a ballot confirmed as prepared. */
  lemma RatifiedIsPrepared(qsets: map<NodeID, QSet>, s: State, n: NodeID, envs: Envelopes, y: Ballot)
    requires Intertwined(qsets) && Inv(qsets, s) && Truthful(qsets, s, envs) && n in qsets
    requires RatifiesPrepared(qsets[n], envs, y)
    ensures Prepared(qsets, s, y)
  {
    var u :| u <= HavePrepared(envs, y) && IsQuorumOf(QSetsOf(envs), u) && Slice(qsets[n], u);
    var m := GoodMember(qsets, n, u);
    assert m in HavePrepared(envs, y);
    Says(qsets, s, envs, m);
  }

  /** When a commit is accepted, a quorum has voted for some commit of that value before any was accepted. */
  lemma AcceptedIsCommit(qsets: map<NodeID, QSet>, s: State, n: NodeID, envs: Envelopes, v: Value, lo: nat, hi: nat)
    requires Intertwined(qsets) && Inv(qsets, s) && Truthful(qsets, s, envs) && n in qsets && lo <= hi
    requires AcceptsCommitted(qsets[n], envs, v, lo, hi)
    ensures SomeCommit(qsets, s, v)
  {
    if Blocked(qsets[n], HaveAccepted(envs, v, lo, hi)) {
      var m := BlockedByGood(qsets, n, HaveAccepted(envs, v, lo, hi));
      Says(qsets, s, envs, m);
      assert Committed(v, envs[m].st);
    } else {
      var u :| u <= SupportCommit(envs, v, lo, hi) && IsQuorumOf(QSetsOf(envs), u) && Slice(qsets[n], u);
      QuorumCommits(qsets, s, n, envs, v, lo, hi, u);
    }
  }

  lemma QuorumCommits(qsets: map<NodeID, QSet>, s: State, n: NodeID, envs: Envelopes, v: Value, lo: nat, hi: nat,
                      u: set<NodeID>)
    requires Intertwined(qsets) && Inv(qsets, s) && Truthful(qsets, s, envs) && n in qsets && lo <= hi
    requires u <= SupportCommit(envs, v, lo, hi) && IsQuorumOf(QSetsOf(envs), u) && Slice(qsets[n], u)
    ensures SomeCommit(qsets, s, v)
  {
    if exists m :: m in u && m in qsets && Committed(v, envs[m].st) {
      var m :| m in u && m in qsets && Committed(v, envs[m].st);
      Says(qsets, s, envs, m);
    } else {
      forall m | m in u && m in qsets ensures Slice(qsets[m], u) && m in s && VotedFor(s[m].hist, Ballot(lo, v)) {
        assert m in SupportCommit(envs, v, lo, hi);
        Says(qsets, s, envs, m);
        assert CommitVote(Ballot(lo, v), envs[m].st);
      }
      assert QuorumFor(qsets, n, u) && AllFor(qsets, s, u, Ballot(lo, v));
      assert BackedCommit(qsets, s, Ballot(lo, v));
    }
  }

  /** Whoever says it has externalized a value has a quorum behind it that accepted the value. */
  ghost predicate Backing(qsets: map<NodeID, QSet>, s: State) {
    forall m, st :: m in s && st in s[m].hist && st.Externalize? ==> Agreed(qsets, s, st.commit.x)
  }

  /** When a commit is confirmed, a quorum has accepted it. */
  lemma RatifiedIsAgreed(qsets: map<NodeID, QSet>, s: State, n: NodeID, envs: Envelopes, v: Value, lo: nat, hi: nat)
    requires Backing(qsets, s) && Truthful(qsets, s, envs) && n in qsets && RatifiesCommitted(qsets[n], envs, v, lo, hi)
    ensures Agreed(qsets, s, v)
  {
    var u :| u <= HaveAccepted(envs, v, lo, hi) && IsQuorumOf(QSetsOf(envs), u) && Slice(qsets[n], u);
    if exists m :: m in u && m in qsets && envs[m].st.Externalize? {
      var m :| m in u && m in qsets && envs[m].st.Externalize?;
      assert m in HaveAccepted(envs, v, lo, hi);
    } else {
      forall m | m in u && m in qsets ensures Slice(qsets[m], u) && m in s && SaidCommitted(s[m].hist, v) {
        assert m in HaveAccepted(envs, v, lo, hi);
        assert Committed(v, envs[m].st);
      }
      assert QuorumFor(qsets, n, u) && AllCommitted(qsets, s, u, v);
    }
  }

  /** Where a value is committed, votes to commit other values are for aborted ballots. */
  lemma OthersAborted(qsets: map<NodeID, QSet>, s: State, v: Value, m: NodeID, x: Ballot)
    requires Intertwined(qsets) && Inv(qsets, s) && SomeCommit(qsets, s, v) && m in s && VotedFor(s[m].hist, x)
    requires x.x != v
    ensures BackedAbort(qsets, s, x)
  {
    var k: nat :| BackedCommit(qsets, s, Ballot(k, v));
    var y := Ballot(k, v);
    NotBoth(qsets, s, y);
    VotedIsPrepared(qsets, s, m, x);
    assert !LessAndIncompatible(y, x);
    var n, u :| QuorumFor(qsets, n, u) && AllFor(qsets, s, u, y);
    var w := GoodMember(qsets, n, u);
    VotedIsPrepared(qsets, s, w, y);
    assert LessAndIncompatible(x, y);
  }

  lemma VotedIsPrepared(qsets: map<NodeID, QSet>, s: State, m: NodeID, x: Ballot)
    requires Inv(qsets, s) && m in s && VotedFor(s[m].hist, x)
    ensures Prepared(qsets, s, x)
  {
    var st :| st in s[m].hist && CommitVote(x, st);
    SoundOf(qsets, s, m, st);
  }

  // ---------- what every step keeps ----------

  /** Every commit voted for by the statement has been voted for before, or nothing has been said against it. */
  ghost predicate NoReversal(hist: set<Statement>, st: Statement) {
    forall x :: CommitVote(x, st) ==> VotedFor(hist, x) || forall o :: o in hist ==> !AbortVote(x, o)
  }

  /** What a step has to establish of its node. */
  ghost predicate Continues(qsets: map<NodeID, QSet>, s: State, w: Peer, node: Node) {
    Consistent(node) && forall k :: Seal(Cycles, k) ==>
      NoReversal(w.hist, StatementOf(node)) && Sound(qsets, s, w.hist, StatementOf(node)) &&
      Orderly(qsets, s, Peer(node, w.hist + {StatementOf(node)}))
  }

  lemma OneVote(x: Ballot, st: Statement)
    ensures !(CommitVote(x, st) && AbortVote(x, st))
  {
  }

  lemma StepGrows(qsets: map<NodeID, QSet>, s: State, n: NodeID, node: Node)
    requires Inv(qsets, s) && n in s && Continues(qsets, s, s[n], node)
    ensures Grows(qsets, s, s[n := Peer(node, s[n].hist + {StatementOf(node)})])
  {
    assert Seal(Cycles, 0);
    var hist, st := s[n].hist, StatementOf(node);
    var now := hist + {st};
    forall x | VotedAgainst(hist, x) ensures VotedAgainst(now, x) {
      var o :| o in hist && AbortVote(x, o);
      assert o in now;
    }
  }

  lemma StepKeeps(qsets: map<NodeID, QSet>, s: State, n: NodeID, node: Node)
    requires Inv(qsets, s) && n in s && Continues(qsets, s, s[n], node)
    ensures Inv(qsets, s[n := Peer(node, s[n].hist + {StatementOf(node)})])
  {
    assert Seal(Cycles, 0);
    var hist, st := s[n].hist, StatementOf(node);
    var now := hist + {st};
    var t := s[n := Peer(node, now)];
    StepGrows(qsets, s, n, node);
    forall m | m in t ensures PeerInv(qsets, t, t[m]) {
      PeerOf(qsets, s, m);
      if m != n {
        PeerStays(qsets, s, t, s[m]);
      } else {
        OrderlyStays(qsets, s, t, t[n]);
        forall o | o in now ensures Sound(qsets, t, now, o) { SoundNow(qsets, s, t, hist, st, o); }
      }
    }
  }

  lemma SoundNow(qsets: map<NodeID, QSet>, s: State, t: State, hist: set<Statement>, st: Statement, o: Statement)
    requires Grows(qsets, s, t) && AllSound(qsets, s, hist) && Sound(qsets, s, hist, st) && NoReversal(hist, st)
    requires o in hist + {st}
    ensures Sound(qsets, t, hist + {st}, o)
  {
    forall x | AbortVote(x, o) && VotedFor(hist + {st}, x) ensures VotedFor(hist, x) {
      var c :| c in hist + {st} && CommitVote(x, c);
      OneVote(x, c);
    }
    SoundStays(qsets, s, t, hist, hist + {st}, o);
  }

  // ---------- the steps ----------

  /** What the node has accepted as prepared is prepared; in the second phase p counts with the value of the commit. */
  lemma OwnPrepared(qsets: map<NodeID, QSet>, s: State, w: Peer)
    requires PeerInv(qsets, s, w)
    ensures w.node.p.Some? && w.node.phase == PreparePhase ==> Prepared(qsets, s, w.node.p.value)
    ensures w.node.pp.Some? && w.node.phase == PreparePhase ==> Prepared(qsets, s, w.node.pp.value)
    ensures w.node.phase == ConfirmPhase ==> Prepared(qsets, s, Ballot(w.node.p.value.n, w.node.c.value.x))
  {
    var st := StatementOf(w.node);
    assert Sound(qsets, s, w.hist, st);
    if w.node.phase == PreparePhase {
      if w.node.p.Some? { assert HasPrepared(w.node.p.value, st); }
      if w.node.pp.Some? { assert HasPrepared(w.node.pp.value, st); }
    } else if w.node.phase == ConfirmPhase {
      assert HasPrepared(Ballot(w.node.p.value.n, w.node.c.value.x), st);
    }
  }

  /** Once a value is committed, whatever is prepared makes that value prepared with the same counter. */
  lemma CommitPrepares(qsets: map<NodeID, QSet>, s: State, v: Value, y: Ballot, m: nat)
    requires Intertwined(qsets) && Inv(qsets, s) && SomeCommit(qsets, s, v) && Prepared(qsets, s, y) && m <= y.n
    ensures Prepared(qsets, s, Ballot(m, v))
  {
    if y.x == v {
      PreparedBelow(qsets, s, y, Ballot(m, v));
    } else {
      var k: nat :| BackedCommit(qsets, s, Ballot(k, v));
      NotBoth(qsets, s, Ballot(k, v));
      CommittedIsPrepared(qsets, s, Ballot(k, v));
      assert !LessAndIncompatible(Ballot(k, v), y);
      PreparedBelow(qsets, s, Ballot(k, v), Ballot(m, v));
    }
  }

  lemma BumpContinues(qsets: map<NodeID, QSet>, s: State, w: Peer, v: Value, counter: nat)
    requires PeerInv(qsets, s, w) && counter != 0 && CanBump(w.node, v, counter)
    requires Consistent(Bumped(w.node, v, counter))
    ensures Continues(qsets, s, w, Bumped(w.node, v, counter))
  {
    var node := Bumped(w.node, v, counter);
    var was, st := StatementOf(w.node), StatementOf(node);
    assert was in w.hist && Sound(qsets, s, w.hist, was);
    forall y | HasPrepared(y, st) ensures Prepared(qsets, s, y) { assert HasPrepared(y, was); }
    forall x | CommitVote(x, st) ensures CommitVote(x, was) && VotedFor(w.hist, x) { }
    forall x | AbortVote(x, st) && VotedFor(w.hist, x) ensures BackedAbort(qsets, s, x) {
      if st.Confirm? { assert AbortVote(x, was); }
    }
    forall u | Committed(u, st) ensures SomeCommit(qsets, s, u) { assert Committed(u, was); }
    forall x | VotedFor(w.hist + {st}, x) ensures VotedFor(w.hist, x) {
      var o :| o in w.hist + {st} && CommitVote(x, o);
    }
  }

  /** Accepting a ballot as prepared leaves the votes as they are, but for a commit withdrawn. */
  lemma AcceptSays(node: Node, y: Ballot)
    requires Consistent(node) && MayAcceptPrepared(node, y) && Consistent(PreparedAccepted(node, y))
    ensures var was, st := StatementOf(node), StatementOf(PreparedAccepted(node, y));
            !st.Externalize? && SaysNoMore(st, was)
  {
  }

  /** Every vote of st is one of `was`. */
  ghost predicate SaysNoMore(st: Statement, was: Statement) {
    (forall x :: CommitVote(x, st) ==> CommitVote(x, was)) && (forall x :: AbortVote(x, st) ==> AbortVote(x, was)) &&
    (forall v :: Committed(v, st) ==> Committed(v, was))
  }

  /** After accepting y as prepared, p and p' are among y and what they were. */
  lemma AcceptContinues(qsets: map<NodeID, QSet>, s: State, n: NodeID, y: Ballot)
    requires Intertwined(qsets) && Inv(qsets, s) && n in s && MayAcceptPrepared(s[n].node, y) && Prepared(qsets, s, y)
    requires Consistent(PreparedAccepted(s[n].node, y))
    ensures Continues(qsets, s, s[n], PreparedAccepted(s[n].node, y))
  {
    PeerOf(qsets, s, n);
    AcceptSound(qsets, s, n, y);
    AcceptOrderly(qsets, s, s[n], y);
  }

  lemma AcceptSound(qsets: map<NodeID, QSet>, s: State, n: NodeID, y: Ballot)
    requires Intertwined(qsets) && Inv(qsets, s) && n in s && MayAcceptPrepared(s[n].node, y) && Prepared(qsets, s, y)
    requires Consistent(s[n].node) && Consistent(PreparedAccepted(s[n].node, y))
    ensures var st := StatementOf(PreparedAccepted(s[n].node, y));
            NoReversal(s[n].hist, st) && Sound(qsets, s, s[n].hist, st)
  {
    PeerOf(qsets, s, n);
    var w := s[n];
    var was, st := StatementOf(w.node), StatementOf(PreparedAccepted(w.node, y));
    assert was in w.hist && Sound(qsets, s, w.hist, was);
    AcceptSays(w.node, y);
    forall z | HasPrepared(z, st) ensures Prepared(qsets, s, z) {
      if w.node.phase == PreparePhase {
        OwnPrepared(qsets, s, w);
        AcceptedBelow(qsets, s, w.node, y, z, st);
      } else {
        assert Committed(z.x, was);
        CommitPrepares(qsets, s, z.x, y, z.n);
      }
    }
    SoundLike(qsets, s, w.hist, was, st);
  }

  /** A statement whose votes are those of an earlier one is as sound. */
  lemma SoundLike(qsets: map<NodeID, QSet>, s: State, hist: set<Statement>, was: Statement, st: Statement)
    requires was in hist && Sound(qsets, s, hist, was) && !st.Externalize?
    requires forall y :: HasPrepared(y, st) ==> Prepared(qsets, s, y)
    requires SaysNoMore(st, was)
    ensures NoReversal(hist, st) && Sound(qsets, s, hist, st)
  {
    forall x | CommitVote(x, st) ensures VotedFor(hist, x) && Prepared(qsets, s, x) { assert CommitVote(x, was); }
  }

  lemma AcceptedBelow(qsets: map<NodeID, QSet>, s: State, node: Node, y: Ballot, z: Ballot, st: Statement)
    requires Consistent(node) && MayAcceptPrepared(node, y) && Consistent(PreparedAccepted(node, y))
    requires st == StatementOf(PreparedAccepted(node, y))
    requires node.phase == PreparePhase && Prepared(qsets, s, y) && (node.p.Some? ==> Prepared(qsets, s, node.p.value))
    requires (node.pp.Some? ==> Prepared(qsets, s, node.pp.value)) && HasPrepared(z, st)
    ensures Prepared(qsets, s, z)
  {
    var now := PreparedAccepted(node, y);
    if now.p.Some? && LessAndCompatible(z, now.p.value) {
      PreparedBelow(qsets, s, now.p.value, z);
    } else {
      PreparedBelow(qsets, s, now.pp.value, z);
    }
  }

  /** A commit vote that is withdrawn was for ballots that have been aborted. */
  lemma WithdrawnIsAborted(qsets: map<NodeID, QSet>, s: State, node: Node, y: Ballot, x: Ballot)
    requires Consistent(node) && MayAcceptPrepared(node, y) && node.phase == PreparePhase && Prepared(qsets, s, y)
    requires (node.p.Some? ==> Prepared(qsets, s, node.p.value))
    requires (node.pp.Some? ==> Prepared(qsets, s, node.pp.value))
    requires node.c.Some? && PreparedAccepted(node, y).c.None? && LessAndCompatible(x, node.h.value)
    ensures BackedAbort(qsets, s, x)
  {
    var now := PreparedAccepted(node, y);
    if now.p.Some? && LessAndIncompatible(node.h.value, now.p.value) {
      assert LessAndIncompatible(x, now.p.value);
    } else {
      assert LessAndIncompatible(x, now.pp.value);
    }
  }

  lemma AcceptOrderly(qsets: map<NodeID, QSet>, s: State, w: Peer, y: Ballot)
    requires PeerInv(qsets, s, w) && MayAcceptPrepared(w.node, y) && Prepared(qsets, s, y)
    requires Consistent(PreparedAccepted(w.node, y))
    ensures Orderly(qsets, s, Peer(PreparedAccepted(w.node, y), w.hist + {StatementOf(PreparedAccepted(w.node, y))}))
  {
    var node := PreparedAccepted(w.node, y);
    var st := StatementOf(node);
    if node.phase == PreparePhase {
      forall x | VotedFor(w.hist + {st}, x)
        ensures (node.c.Some? && LessAndCompatible(x, node.h.value)) || BackedAbort(qsets, s, x)
      {
        AcceptVote(qsets, s, w, y, x);
      }
    }
  }

  lemma AcceptVote(qsets: map<NodeID, QSet>, s: State, w: Peer, y: Ballot, x: Ballot)
    requires PeerInv(qsets, s, w) && MayAcceptPrepared(w.node, y) && Prepared(qsets, s, y)
    requires Consistent(PreparedAccepted(w.node, y))
    requires w.node.phase == PreparePhase && VotedFor(w.hist + {StatementOf(PreparedAccepted(w.node, y))}, x)
    ensures var node := PreparedAccepted(w.node, y);
            (node.c.Some? && LessAndCompatible(x, node.h.value)) || BackedAbort(qsets, s, x)
  {
    var node := PreparedAccepted(w.node, y);
    var o :| o in w.hist + {StatementOf(node)} && CommitVote(x, o);
    assert CommitVote(x, if o in w.hist then o else StatementOf(w.node));
    assert VotedFor(w.hist, x);
    if w.node.c.Some? && node.c.None? && LessAndCompatible(x, w.node.h.value) {
      OwnPrepared(qsets, s, w);
      WithdrawnIsAborted(qsets, s, w.node, y, x);
    }
  }

  lemma ConfirmContinues(qsets: map<NodeID, QSet>, s: State, w: Peer, newC: Option<Ballot>, newH: Ballot)
    requires PeerInv(qsets, s, w) && MayConfirmPrepared(w.node, newC, newH) && Prepared(qsets, s, newH)
    requires Consistent(PreparedConfirmed(w.node, newC, newH))
    ensures Continues(qsets, s, w, PreparedConfirmed(w.node, newC, newH))
  {
    var node := PreparedConfirmed(w.node, newC, newH);
    var was, st := StatementOf(w.node), StatementOf(node);
    assert was in w.hist && Sound(qsets, s, w.hist, was);
    forall y | HasPrepared(y, st) ensures Prepared(qsets, s, y) { assert HasPrepared(y, was); }
    forall x | CommitVote(x, st) ensures Prepared(qsets, s, x) && forall o :: o in w.hist ==> !AbortVote(x, o) {
      PreparedBelow(qsets, s, newH, x);
      NothingAgainst(qsets, s, w, newC, newH, x);
    }
    forall x | AbortVote(x, st) && VotedFor(w.hist, x) ensures BackedAbort(qsets, s, x) { }
    ConfirmOrderly(qsets, s, w, newC, newH);
  }

  /** Nothing above the commit now voted for has been voted for with another value. */
  lemma NothingAgainst(qsets: map<NodeID, QSet>, s: State, w: Peer, newC: Option<Ballot>, newH: Ballot, x: Ballot)
    requires PeerInv(qsets, s, w) && MayConfirmPrepared(w.node, newC, newH)
    requires Consistent(PreparedConfirmed(w.node, newC, newH))
    requires CommitVote(x, StatementOf(PreparedConfirmed(w.node, newC, newH)))
    ensures forall o :: o in w.hist ==> !AbortVote(x, o)
  {
    var c := if newC.Some? then newC.value else w.node.c.value;
    assert LessAndCompatible(c, x);
    forall o | o in w.hist ensures !AbortVote(x, o) {
      assert o.ballot.x == c.x || Leq(o.ballot, c);
    }
  }

  lemma ConfirmOrderly(qsets: map<NodeID, QSet>, s: State, w: Peer, newC: Option<Ballot>, newH: Ballot)
    requires PeerInv(qsets, s, w) && MayConfirmPrepared(w.node, newC, newH)
    requires Consistent(PreparedConfirmed(w.node, newC, newH))
    ensures Orderly(qsets, s,
        Peer(PreparedConfirmed(w.node, newC, newH), w.hist + {StatementOf(PreparedConfirmed(w.node, newC, newH))}))
  {
    var node := PreparedConfirmed(w.node, newC, newH);
    var st := StatementOf(node);
    var now := w.hist + {st};
    forall o | o in now ensures o.Prepare? && Leq(o.ballot, st.ballot) { }
    forall x | VotedFor(now, x)
      ensures (node.c.Some? && LessAndCompatible(x, node.h.value)) || BackedAbort(qsets, s, x)
    {
      var o :| o in now && CommitVote(x, o);
      if o in w.hist { assert VotedFor(w.hist, x); }
    }
  }

  lemma CommitContinues(qsets: map<NodeID, QSet>, s: State, n: NodeID, v: Value, lo: nat, hi: nat)
    requires Intertwined(qsets) && Inv(qsets, s) && n in s && MayAcceptCommit(s[n].node, v, lo, hi)
    requires SomeCommit(qsets, s, v)
    requires Consistent(CommitAccepted(s[n].node, v, lo, hi))
    ensures Continues(qsets, s, s[n], CommitAccepted(s[n].node, v, lo, hi))
  {
    PeerOf(qsets, s, n);
    var w, node := s[n], CommitAccepted(s[n].node, v, lo, hi);
    var st := StatementOf(node);
    OwnPrepared(qsets, s, w);
    forall y | HasPrepared(y, st) ensures Prepared(qsets, s, y) {
      if w.node.phase == PreparePhase {
        CommitPrepares(qsets, s, v, w.node.p.value, y.n);
      } else {
        PreparedBelow(qsets, s, Ballot(w.node.p.value.n, v), y);
      }
    }
    forall x | AbortVote(x, st) && VotedFor(w.hist, x)
      ensures BackedAbort(qsets, s, x)
    {
      OthersAborted(qsets, s, v, n, x);
    }
  }

  lemma ExternalizeContinues(qsets: map<NodeID, QSet>, s: State, n: NodeID, v: Value, lo: nat, hi: nat)
    requires Intertwined(qsets) && Inv(qsets, s) && n in s && MayConfirmCommit(s[n].node, v, lo, hi)
    requires Agreed(qsets, s, v)
    requires Consistent(CommitConfirmed(s[n].node, v, lo, hi))
    ensures Continues(qsets, s, s[n], CommitConfirmed(s[n].node, v, lo, hi))
  {
    PeerOf(qsets, s, n);
    var w, node := s[n], CommitConfirmed(s[n].node, v, lo, hi);
    var was, st := StatementOf(w.node), StatementOf(node);
    assert was in w.hist && Sound(qsets, s, w.hist, was) && Committed(v, was);
    forall y | HasPrepared(y, st) ensures Prepared(qsets, s, y) {
      forall z | LessAndIncompatible(z, y) ensures BackedAbort(qsets, s, z) { AgreedAborts(qsets, s, v, z); }
    }
    forall x | AbortVote(x, st) && VotedFor(w.hist, x)
      ensures BackedAbort(qsets, s, x)
    {
      AgreedAborts(qsets, s, v, x);
    }
  }

  lemma BumpKeeps(qsets: map<NodeID, QSet>, s: State, step: Step)
    requires Intertwined(qsets) && Inv(qsets, s) && Enabled(qsets, s, step) && step.Bump?
    requires Consistent(After(s[step.n].node, step))
    ensures Inv(qsets, Next(s, step))
  {
    PeerOf(qsets, s, step.n);
    BumpContinues(qsets, s, s[step.n], step.v, step.counter);
    StepKeeps(qsets, s, step.n, Bumped(s[step.n].node, step.v, step.counter));
  }

  lemma AcceptKeeps(qsets: map<NodeID, QSet>, s: State, step: Step)
    requires Intertwined(qsets) && Inv(qsets, s) && Enabled(qsets, s, step) && step.AcceptPrepared?
    requires Consistent(After(s[step.n].node, step))
    ensures Inv(qsets, Next(s, step))
  {
    PeerOf(qsets, s, step.n);
    AcceptedIsPrepared(qsets, s, step.n, step.envs, step.y);
    AcceptContinues(qsets, s, step.n, step.y);
    StepKeeps(qsets, s, step.n, PreparedAccepted(s[step.n].node, step.y));
  }

  lemma ConfirmKeeps(qsets: map<NodeID, QSet>, s: State, step: Step)
    requires Intertwined(qsets) && Inv(qsets, s) && Enabled(qsets, s, step) && step.ConfirmPrepared?
    requires Consistent(After(s[step.n].node, step))
    ensures Inv(qsets, Next(s, step))
  {
    PeerOf(qsets, s, step.n);
    RatifiedIsPrepared(qsets, s, step.n, step.envs, step.newH);
    ConfirmContinues(qsets, s, s[step.n], step.newC, step.newH);
    StepKeeps(qsets, s, step.n, PreparedConfirmed(s[step.n].node, step.newC, step.newH));
  }

  lemma CommitKeeps(qsets: map<NodeID, QSet>, s: State, step: Step)
    requires Intertwined(qsets) && Inv(qsets, s) && Enabled(qsets, s, step) && step.AcceptCommit?
    requires Consistent(After(s[step.n].node, step))
    ensures Inv(qsets, Next(s, step))
  {
    AcceptedIsCommit(qsets, s, step.n, step.envs, step.v, step.lo, step.hi);
    CommitContinues(qsets, s, step.n, step.v, step.lo, step.hi);
    StepKeeps(qsets, s, step.n, CommitAccepted(s[step.n].node, step.v, step.lo, step.hi));
  }

  lemma ExternalizeKeeps(qsets: map<NodeID, QSet>, s: State, step: Step)
    requires Intertwined(qsets) && Inv(qsets, s) && Enabled(qsets, s, step) && step.ConfirmCommit?
    requires Consistent(After(s[step.n].node, step))
    ensures Inv(qsets, Next(s, step))
  {
    forall m, st | m in s && st in s[m].hist && st.Externalize?
      ensures Agreed(qsets, s, st.commit.x)
    {
      SoundOf(qsets, s, m, st);
    }
    RatifiedIsAgreed(qsets, s, step.n, step.envs, step.v, step.lo, step.hi);
    ExternalizeContinues(qsets, s, step.n, step.v, step.lo, step.hi);
    StepKeeps(qsets, s, step.n, CommitConfirmed(s[step.n].node, step.v, step.lo, step.hi));
  }

  /** Every step that passes the test keeps the invariant. */
  lemma InvKept(qsets: map<NodeID, QSet>, s: State, step: Step)
    requires Intertwined(qsets) && Inv(qsets, s) && Enabled(qsets, s, step) && Checked(s, step)
    ensures Inv(qsets, Next(s, step))
  {
    PeerOf(qsets, s, step.n);
    StepConsistent(qsets[step.n], s[step.n].node, step);
    match step
    case Bump(_, _, _) => BumpKeeps(qsets, s, step);
    case AcceptPrepared(_, _, _) => AcceptKeeps(qsets, s, step);
    case ConfirmPrepared(_, _, _, _) => ConfirmKeeps(qsets, s, step);
    case AcceptCommit(_, _, _, _, _) => CommitKeeps(qsets, s, step);
    case ConfirmCommit(_, _, _, _, _) => ExternalizeKeeps(qsets, s, step);
  }

  lemma InvStart(qsets: map<NodeID, QSet>)
    ensures Inv(qsets, Start(qsets))
  {
    var s := Start(qsets);
    forall m | m in s ensures PeerInv(qsets, s, s[m]) {
      forall st | st in s[m].hist ensures Sound(qsets, s, s[m].hist, st) { }
    }
  }

  lemma {:induction false} InvReached(qsets: map<NodeID, QSet>, states: seq<State>, steps: seq<Step>, i: nat)
    requires Intertwined(qsets) && IsCheckedRun(qsets, states, steps) && i < |states|
    ensures Inv(qsets, states[i])
    decreases i
  {
    if i == 0 {
      InvStart(qsets);
    } else {
      InvReached(qsets, states, steps, i - 1);
      assert Enabled(qsets, states[i - 1], steps[i - 1]) && Checked(states[i - 1], steps[i - 1]) &&
          states[i - 1 + 1] == Next(states[i - 1], steps[i - 1]);
      InvKept(qsets, states[i - 1], steps[i - 1]);
    }
  }

  // ---------- agreement ----------

  /** Two committed values are one. */
  lemma OneValue(qsets: map<NodeID, QSet>, s: State, v: Value, u: Value)
    requires Intertwined(qsets) && Inv(qsets, s) && SomeCommit(qsets, s, v) && SomeCommit(qsets, s, u)
    ensures v == u
  {
    var k: nat :| BackedCommit(qsets, s, Ballot(k, v));
    var l: nat :| BackedCommit(qsets, s, Ballot(l, u));
    NotBelow(qsets, s, Ballot(k, v), Ballot(l, u));
    NotBelow(qsets, s, Ballot(l, u), Ballot(k, v));
  }

  lemma NotBelow(qsets: map<NodeID, QSet>, s: State, x: Ballot, y: Ballot)
    requires Intertwined(qsets) && Inv(qsets, s) && BackedCommit(qsets, s, x) && BackedCommit(qsets, s, y)
    ensures !LessAndIncompatible(x, y)
  {
    NotBoth(qsets, s, x);
    CommittedIsPrepared(qsets, s, y);
  }

  lemma CommittedIsPrepared(qsets: map<NodeID, QSet>, s: State, x: Ballot)
    requires Intertwined(qsets) && Inv(qsets, s) && BackedCommit(qsets, s, x)
    ensures Prepared(qsets, s, x)
  {
    var n, u :| QuorumFor(qsets, n, u) && AllFor(qsets, s, u, x);
    var m := GoodMember(qsets, n, u);
    VotedIsPrepared(qsets, s, m, x);
  }

  /** Nothing said is unsaid. */
  lemma {:induction false} HistKept(qsets: map<NodeID, QSet>, states: seq<State>, steps: seq<Step>, i: nat, j: nat,
                                    x: NodeID)
    requires IsRun(qsets, states, steps) && i <= j < |states| && x in states[i]
    ensures x in states[j] && states[i][x].hist <= states[j][x].hist
    decreases j - i
  {
    if i < j {
      assert Enabled(qsets, states[i], steps[i]) && states[i + 1] == Next(states[i], steps[i]);
      HistKept(qsets, states, steps, i + 1, j, x);
    }
  }

  /** A node that has accepted a commit of a value at some time makes that value one that a quorum voted to commit. */
  lemma CommitOf(qsets: map<NodeID, QSet>, states: seq<State>, steps: seq<Step>, i: nat, j: nat, x: NodeID)
    requires Intertwined(qsets) && IsCheckedRun(qsets, states, steps) && i <= j < |states| && x in states[i]
    requires states[i][x].node.phase != PreparePhase
    ensures states[i][x].node.c.Some? && SomeCommit(qsets, states[j], states[i][x].node.c.value.x)
  {
    InvReached(qsets, states, steps, i);
    InvReached(qsets, states, steps, j);
    PeerOf(qsets, states[i], x);
    HistKept(qsets, states, steps, i, j, x);
    var st := StatementOf(states[i][x].node);
    SoundOf(qsets, states[j], x, st);
    assert Committed(states[i][x].node.c.value.x, st);
  }

  /** Agreement: well-behaved nodes that have accepted a commit, or externalized it, at whatever time of a run, are
      bound to the same value. */
  lemma Agreement(qsets: map<NodeID, QSet>, states: seq<State>, steps: seq<Step>, i: nat, j: nat, x: NodeID, y: NodeID)
    requires Intertwined(qsets) && IsCheckedRun(qsets, states, steps) && i < |states| && j < |states| && x in states[i]
    requires y in states[j]
    requires states[i][x].node.phase != PreparePhase && states[j][y].node.phase != PreparePhase
    ensures states[i][x].node.c.Some? && states[j][y].node.c.Some?
    ensures states[i][x].node.c.value.x == states[j][y].node.c.value.x
  {
    var k := if i <= j then j else i;
    InvReached(qsets, states, steps, k);
    CommitOf(qsets, states, steps, i, k, x);
    CommitOf(qsets, states, steps, j, k, y);
    OneValue(qsets, states[k], states[i][x].node.c.value.x, states[j][y].node.c.value.x);
  }

  // ---------- progress of statements ----------

  /** After a step a node's statement is newer than before, so that its peers do not drop it; the exception is a
      confirmation that raises h neither above the ballot nor in its counter. */
  lemma StepIsNewer(q: QSet, s: Node, step: Step)
    requires Consistent(s) && Guard(q, s, step) && Consistent(After(s, step))
    ensures IsNewer(StatementOf(s), StatementOf(After(s, step))) <==>
            !(step.ConfirmPrepared? && s.b.Some? && Leq(step.newH, s.b.value) && step.newH.n <= CounterOf(s.h))
  {
    match step
    case AcceptPrepared(_, y, _) => AcceptIsNewer(s, y);
    case _ =>
  }

  lemma AcceptIsNewer(s: Node, y: Ballot)
    requires Consistent(s) && MayAcceptPrepared(s, y) && Consistent(PreparedAccepted(s, y))
    ensures IsNewer(StatementOf(s), StatementOf(PreparedAccepted(s, y)))
  {
  }
}
