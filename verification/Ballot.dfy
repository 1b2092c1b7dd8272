/** The ballot protocol of src/scp/BallotProtocol.cpp: ballots, the statements nodes send, the state of a node and its
    transitions. */
module Ballot {
  import opened Quorum

  type Value = nat

  /** A counter and a value, ordered by both. */
  datatype Ballot = Ballot(n: nat, x: Value)

  predicate Leq(a: Ballot, b: Ballot) {
    a.n < b.n || (a.n == b.n && a.x <= b.x)
  }

  predicate LessAndCompatible(a: Ballot, b: Ballot) {
    Leq(a, b) && a.x == b.x
  }

  predicate LessAndIncompatible(a: Ballot, b: Ballot) {
    Leq(a, b) && a.x != b.x
  }

  /** Null is below every ballot. */
  predicate LeqOption(a: Option<Ballot>, b: Option<Ballot>) {
    a.None? || (b.Some? && Leq(a.value, b.value))
  }

  datatype Statement =
    | Prepare(ballot: Ballot, prepared: Option<Ballot>, preparedPrime: Option<Ballot>, nC: nat, nH: nat)
    | Confirm(ballot: Ballot, nPrepared: nat, nCommit: nat, nH: nat)
    | Externalize(commit: Ballot, nH: nat)

  // ---------- what a statement says ----------

  /** It votes to prepare the ballot. */
  predicate VotesPrepare(ballot: Ballot, st: Statement) {
    match st
    case Prepare(b, _, _, _, _) => LessAndCompatible(ballot, b)
    case Confirm(b, _, _, _) => ballot.x == b.x
    case Externalize(commit, _) => ballot.x == commit.x
  }

  /** It has accepted the ballot as prepared: `hasPreparedBallot`. */
  predicate HasPrepared(ballot: Ballot, st: Statement) {
    match st
    case Prepare(_, p, pp, _, _) =>
      (p.Some? && LessAndCompatible(ballot, p.value)) || (pp.Some? && LessAndCompatible(ballot, pp.value))
    case Confirm(b, nPrepared, _, _) => LessAndCompatible(ballot, Ballot(nPrepared, b.x))
    case Externalize(commit, _) => ballot.x == commit.x
  }

  /** It votes to commit the counters from lo to hi with value v. */
  predicate VotesCommit(v: Value, lo: nat, hi: nat, st: Statement) {
    match st
    case Prepare(b, _, _, nC, nH) => v == b.x && nC != 0 && nC <= lo && hi <= nH
    case Confirm(b, _, nCommit, _) => v == b.x && nCommit <= lo
    case Externalize(commit, _) => v == commit.x && commit.n <= lo
  }

  /** It has accepted that commit: `commitPredicate`. */
  predicate AcceptsCommit(v: Value, lo: nat, hi: nat, st: Statement) {
    match st
    case Prepare(_, _, _, _, _) => false
    case Confirm(b, _, nCommit, nH) => v == b.x && nCommit <= lo && hi <= nH
    case Externalize(commit, _) => v == commit.x && commit.n <= lo
  }

  /** The value a node that has accepted a commit is bound to. */
  predicate Committed(v: Value, st: Statement) {
    (st.Confirm? && st.ballot.x == v) || (st.Externalize? && st.commit.x == v)
  }

  // ---------- the state of a node ----------

  datatype Phase = PreparePhase | ConfirmPhase | ExternalizePhase

  datatype Node = Node(b: Option<Ballot>, p: Option<Ballot>, pp: Option<Ballot>, h: Option<Ballot>, c: Option<Ballot>,
                       phase: Phase)

  const NEW_NODE := Node(None, None, None, None, None, PreparePhase)

  /** What `createStatement` reads from the state is there. */
  predicate Speaks(s: Node) {
    match s.phase
    case PreparePhase => true
    case ConfirmPhase => s.b.Some? && s.p.Some? && s.c.Some? && s.h.Some?
    case ExternalizePhase => s.c.Some? && s.h.Some?
  }

  /** The assertions of `checkInvariants`. A release build leaves them out. */
  predicate Asserted(s: Node) {
    (s.b.Some? ==> s.b.value.n != 0) &&
    (s.p.Some? && s.pp.Some? ==> LessAndIncompatible(s.pp.value, s.p.value)) &&
    (s.c.Some? ==> s.b.Some? && s.h.Some?) &&
    (s.c.Some? ==> LessAndCompatible(s.c.value, s.h.value) && LessAndCompatible(s.h.value, s.b.value)) &&
    (s.phase != PreparePhase ==> s.c.Some?)
  }

  /** What the code relies on besides, and keeps: p' is there only beside p, and once a commit is accepted there is a p
      and no p'. */
  predicate Regular(s: Node) {
    (s.pp.Some? ==> s.p.Some?) && (s.phase != PreparePhase ==> s.p.Some? && s.pp.None?)
  }

  predicate Consistent(s: Node) {
    Asserted(s) && Regular(s)
  }

  function CounterOf(b: Option<Ballot>): nat {
    if b.Some? then b.value.n else 0
  }

  /** `createStatement`. */
  function StatementOf(s: Node): Statement
    requires Speaks(s)
  {
    match s.phase
    case PreparePhase =>
      Prepare(if s.b.Some? then s.b.value else Ballot(0, 0), s.p, s.pp, CounterOf(s.c), CounterOf(s.h))
    case ConfirmPhase => Confirm(s.b.value, s.p.value.n, s.c.value.n, s.h.value.n)
    case ExternalizePhase => Externalize(s.c.value, s.h.value.n)
  }

  // ---------- transitions ----------

  /** `bumpState` with a value and a counter: committed nodes keep their value. */
  function BumpTarget(s: Node, v: Value, n: nat): Ballot {
    Ballot(n, if s.h.Some? then s.h.value.x else v)
  }

  predicate CanBump(s: Node, v: Value, n: nat) {
    var to := BumpTarget(s, v, n);
    s.phase != ExternalizePhase &&
    (s.b.None? || (Leq(s.b.value, to) && s.b.value != to && (s.c.Some? ==> s.c.value.x == to.x)))
  }

  function Bumped(s: Node, v: Value, n: nat): Node {
    s.(b := Some(BumpTarget(s, v, n)))
  }

  /** `setPrepared` */
  function WithPrepared(s: Node, ballot: Ballot): Node {
    if s.p.None? then s.(p := Some(ballot))
    else if s.p.value == ballot then s
    else if Leq(s.p.value, ballot) then s.(p := Some(ballot), pp := if s.p.value.x != ballot.x then s.p else s.pp)
    else if s.pp.None? || (Leq(s.pp.value, ballot) && s.pp.value != ballot) then s.(pp := Some(ballot))
    else s
  }

  /** The commit vote is withdrawn when something above it has been accepted as prepared. */
  function WithoutStaleCommit(s: Node): Node {
    if s.c.Some? && s.h.Some? &&
       ((s.p.Some? && LessAndIncompatible(s.h.value, s.p.value)) ||
        (s.pp.Some? && LessAndIncompatible(s.h.value, s.pp.value)))
    then s.(c := None) else s
  }

  /** Whether `attemptPreparedAccept` considers the ballot. */
  predicate MayAcceptPrepared(s: Node, ballot: Ballot) {
    s.phase != ExternalizePhase &&
    (s.phase == ConfirmPhase ==> s.p.Some? && LessAndCompatible(s.p.value, ballot)) &&
    (s.pp.Some? ==> !Leq(ballot, s.pp.value)) && (s.p.Some? ==> !LessAndCompatible(ballot, s.p.value))
  }

  function PreparedAccepted(s: Node, ballot: Ballot): Node {
    WithoutStaleCommit(WithPrepared(s, ballot))
  }

  /** `updateCurrentIfNeeded` */
  function Caught(s: Node): Node {
    if s.h.Some? && (s.b.None? || (Leq(s.b.value, s.h.value) && s.b.value != s.h.value)) then s.(b := s.h) else s
  }

  /** Whether `attemptPreparedConfirmed` may raise h, and set c with it. */
  predicate MayConfirmPrepared(s: Node, newC: Option<Ballot>, newH: Ballot) {
    s.phase == PreparePhase && s.p.Some? && (s.h.Some? ==> !Leq(newH, s.h.value)) &&
    (newC.Some? ==>
       s.c.None? && newC.value.n != 0 && Leq(newC.value, newH) && (s.b.Some? ==> Leq(s.b.value, newC.value)) &&
       !LessAndIncompatible(newH, s.p.value) && (s.pp.Some? ==> !LessAndIncompatible(newH, s.pp.value)))
  }

  function PreparedConfirmed(s: Node, newC: Option<Ballot>, newH: Ballot): Node {
    Caught(s.(h := Some(newH), c := if newC.Some? then newC else s.c))
  }

  predicate MayAcceptCommit(s: Node, v: Value, lo: nat, hi: nat) {
    s.phase != ExternalizePhase && 0 < lo <= hi &&
    (s.phase == ConfirmPhase ==> s.h.Some? && v == s.h.value.x && hi > s.h.value.n)
  }

  /** `setAcceptCommit` */
  function CommitAccepted(s: Node, v: Value, lo: nat, hi: nat): Node {
    var c, h := Ballot(lo, v), Ballot(hi, v);
    var t := s.(c := Some(c), h := Some(h));
    Caught(if s.phase == PreparePhase then
             t.(phase := ConfirmPhase, pp := None,
                b := if s.b.Some? && !LessAndCompatible(h, s.b.value) then Some(h) else s.b)
           else t)
  }

  predicate MayConfirmCommit(s: Node, v: Value, lo: nat, hi: nat) {
    s.phase == ConfirmPhase && s.h.Some? && s.c.Some? && v == s.c.value.x && 0 < lo <= hi
  }

  /** `setConfirmCommit` */
  function CommitConfirmed(s: Node, v: Value, lo: nat, hi: nat): Node {
    Caught(s.(c := Some(Ballot(lo, v)), h := Some(Ballot(hi, v)))).(phase := ExternalizePhase)
  }

  // ---------- when the assertions hold ----------

  lemma BumpConsistent(s: Node, v: Value, n: nat)
    requires Consistent(s) && CanBump(s, v, n) && n != 0
    ensures Consistent(Bumped(s, v, n))
  {
  }

  /** In the second phase accepting a ballot as prepared withdraws the commit if the ballot is above h and incompatible
      with it. */
  lemma AcceptConsistent(s: Node, y: Ballot)
    requires Consistent(s) && MayAcceptPrepared(s, y)
    ensures Consistent(PreparedAccepted(s, y)) <==> (s.phase == ConfirmPhase ==> !LessAndIncompatible(s.h.value, y))
  {
  }

  /** The commit that is then voted for. */
  function CommitAfter(s: Node, newC: Option<Ballot>): Option<Ballot> {
    if newC.Some? then newC else s.c
  }

  /** Confirming a ballot as prepared keeps the assertions exactly when the commit voted for, if any, has the value of
      the ballot confirmed; the search for the commit does not look at that. */
  lemma ConfirmConsistent(s: Node, newC: Option<Ballot>, newH: Ballot)
    requires Consistent(s) && MayConfirmPrepared(s, newC, newH)
    ensures Consistent(PreparedConfirmed(s, newC, newH)) <==>
            (CommitAfter(s, newC).Some? ==> CommitAfter(s, newC).value.x == newH.x) && (s.b.None? ==> newH.n != 0)
  {
  }

  /** Accepting a commit keeps them exactly when some ballot has been accepted as prepared. */
  lemma CommitConsistent(s: Node, v: Value, lo: nat, hi: nat)
    requires Consistent(s) && MayAcceptCommit(s, v, lo, hi)
    ensures Consistent(CommitAccepted(s, v, lo, hi)) <==> s.p.Some?
  {
  }

  lemma ExternalizeConsistent(s: Node, v: Value, lo: nat, hi: nat)
    requires Consistent(s) && MayConfirmCommit(s, v, lo, hi)
    ensures Consistent(CommitConfirmed(s, v, lo, hi))
  {
  }

  // ---------- what p and p' remember ----------

  /** p is the highest of the ballots accepted as prepared, p' the highest of those incompatible with p. */
  ghost predicate Remembers(s: Node, accepted: set<Ballot>) {
    (s.p.None? ==> accepted == {} && s.pp.None?) &&
    (s.p.Some? ==> s.p.value in accepted && forall y :: y in accepted ==> Leq(y, s.p.value)) &&
    (s.p.Some? && s.pp.None? ==> forall y :: y in accepted ==> y.x == s.p.value.x) &&
    (s.pp.Some? ==> s.pp.value in accepted && s.pp.value.x != s.p.value.x &&
                    forall y :: y in accepted && y.x != s.p.value.x ==> Leq(y, s.pp.value))
  }

  /** A ballot that can be accepted is recorded; one that `attemptPreparedAccept` passes over needs no record. */
  lemma KeepsHighest(s: Node, accepted: set<Ballot>, y: Ballot)
    requires s.phase == PreparePhase && Remembers(s, accepted)
    ensures Remembers(if MayAcceptPrepared(s, y) then WithPrepared(s, y) else s, accepted + {y})
  {
  }

  /** They are enough to answer every question about what has been accepted. */
  lemma RemembersAll(s: Node, accepted: set<Ballot>, y: Ballot)
    requires Consistent(s) && s.phase == PreparePhase && Remembers(s, accepted)
    ensures (exists z :: z in accepted && LessAndIncompatible(y, z)) <==>
            (s.p.Some? && LessAndIncompatible(y, s.p.value)) || (s.pp.Some? && LessAndIncompatible(y, s.pp.value))
  {
    if exists z :: z in accepted && LessAndIncompatible(y, z) {
      var z :| z in accepted && LessAndIncompatible(y, z);
      LeqThrough(y, z, s.p.value);
      if s.pp.Some? { LeqThrough(y, z, s.pp.value); }
    }
  }

  // ---------- sane statements ----------

  /** `isStatementSane` for a node's own statements, whose quorum set is sane. */
  predicate IsSane(st: Statement) {
    match st
    case Prepare(b, p, pp, nC, nH) =>
      (pp.Some? && p.Some? ==> LessAndIncompatible(pp.value, p.value)) &&
      (nH == 0 || (p.Some? && nH <= p.value.n)) &&
      (nC == 0 || (nH != 0 && b.n >= nH && nH >= nC))
    case Confirm(b, _, nCommit, nH) => b.n > 0 && nH <= b.n && nCommit <= nH
    case Externalize(commit, nH) => commit.n > 0 && nH >= commit.n
  }

  // ---------- newer statements ----------

  predicate LessOption(a: Option<Ballot>, b: Option<Ballot>) {
    b.Some? && (a.None? || (Leq(a.value, b.value) && a != b))
  }

  function Rank(st: Statement): nat {
    match st case Prepare(_, _, _, _, _) => 0 case Confirm(_, _, _, _) => 1 case Externalize(_, _) => 2
  }

  /** `isNewerStatement`: by kind, then by ballot, p, p' and the counter of h. */
  predicate IsNewer(was: Statement, st: Statement) {
    if Rank(was) != Rank(st) then Rank(was) < Rank(st)
    else match st
      case Externalize(_, _) => false
      case Confirm(b, nPrepared, _, nH) =>
        if was.ballot != b then Leq(was.ballot, b)
        else if was.nPrepared != nPrepared then was.nPrepared < nPrepared else was.nH < nH
      case Prepare(b, p, pp, _, nH) =>
        if was.ballot != b then Leq(was.ballot, b)
        else if was.prepared != p then LessOption(was.prepared, p)
        else if was.preparedPrime != pp then LessOption(was.preparedPrime, pp)
        else was.nH < nH
  }

  lemma NewerIsOrder(a: Statement, b: Statement, c: Statement)
    ensures !IsNewer(a, a) && (IsNewer(a, b) ==> !IsNewer(b, a)) && (IsNewer(a, b) && IsNewer(b, c) ==> IsNewer(a, c))
  {
    NewerOnce(a, b);
    if IsNewer(a, b) && IsNewer(b, c) { NewerThrough(a, b, c); }
  }

  lemma NewerOnce(a: Statement, b: Statement)
    ensures !IsNewer(a, a) && (IsNewer(a, b) ==> !IsNewer(b, a))
  {
  }

  lemma LeqThrough(a: Ballot, b: Ballot, c: Ballot)
    ensures Leq(a, b) && Leq(b, c) ==> Leq(a, c) && (a == c ==> a == b)
  {
  }

  lemma LessThrough(a: Option<Ballot>, b: Option<Ballot>, c: Option<Ballot>)
    ensures LessOption(a, b) && LessOption(b, c) ==> LessOption(a, c)
  {
    if a.Some? && b.Some? && c.Some? { LeqThrough(a.value, b.value, c.value); }
  }

  lemma NewerThrough(a: Statement, b: Statement, c: Statement)
    requires IsNewer(a, b) && IsNewer(b, c)
    ensures IsNewer(a, c)
  {
    if Rank(a) == Rank(b) == Rank(c) && !a.Externalize? {
      LeqThrough(a.ballot, b.ballot, c.ballot);
      if a.Prepare? {
        LessThrough(a.prepared, b.prepared, c.prepared);
        LessThrough(a.preparedPrime, b.preparedPrime, c.preparedPrime);
      }
    }
  }
}
