/** What the attempts of src/scp/BallotProtocol.cpp look for among the statements heard. */
module BallotSearch {
  import opened Quorum
  import opened Ballot
  import opened BallotSafety

  // ---------- ordered sets of ballots and counters ----------

  predicate Descending(s: seq<Ballot>) {
    forall i, j :: 0 <= i < j < |s| ==> Leq(s[j], s[i]) && s[i] != s[j]
  }

  /** Inserting into an ordered set. */
  method InsertBallot(s: seq<Ballot>, b: Ballot) returns (r: seq<Ballot>)
    requires Descending(s)
    ensures Descending(r) && forall x :: x in r <==> x in s || x == b
  {
    var i := 0;
    while i < |s| && Leq(b, s[i]) && b != s[i]
      invariant i <= |s| && forall j :: 0 <= j < i ==> Leq(b, s[j]) && b != s[j]
    {
      i := i + 1;
    }
    if i < |s| && s[i] == b {
      return s;
    }
    r := s[..i] + [b] + s[i..];
    forall x ensures x in r <==> x in s || x == b {
      assert s == s[..i] + s[i..];
    }
  }

  predicate DescendingCounters(s: seq<nat>) {
    forall i, j :: 0 <= i < j < |s| ==> s[j] < s[i]
  }

  method InsertCounter(s: seq<nat>, n: nat) returns (r: seq<nat>)
    requires DescendingCounters(s)
    ensures DescendingCounters(r) && forall x :: x in r <==> x in s || x == n
  {
    var i := 0;
    while i < |s| && n < s[i]
      invariant i <= |s| && forall j :: 0 <= j < i ==> n < s[j]
    {
      i := i + 1;
    }
    if i < |s| && s[i] == n {
      return s;
    }
    r := s[..i] + [n] + s[i..];
    forall x ensures x in r <==> x in s || x == n {
      assert s == s[..i] + s[i..];
    }
  }

  const UINT32_MAX: nat := 0xFFFF_FFFF

  // ---------- what to look at ----------

  /** The ballots a hint names. */
  function HintBallots(hint: Statement): seq<Ballot> {
    match hint
    case Prepare(b, p, pp, _, _) => [b] + (if p.Some? then [p.value] else []) + (if pp.Some? then [pp.value] else [])
    case Confirm(b, nPrepared, _, _) => [Ballot(nPrepared, b.x), Ballot(UINT32_MAX, b.x)]
    case Externalize(commit, _) => [Ballot(UINT32_MAX, commit.x)]
  }

  /** The ballots up to `top` that a statement suggests may have been prepared. */
  function Suggested(top: Ballot, st: Statement): seq<Ballot> {
    match st
    case Prepare(b, p, pp, _, _) =>
      (if LessAndCompatible(b, top) then [b] else []) +
      (if p.Some? && LessAndCompatible(p.value, top) then [p.value] else []) +
      (if pp.Some? && LessAndCompatible(pp.value, top) then [pp.value] else [])
    case Confirm(b, nPrepared, _, _) =>
      if top.x == b.x then [top] + (if nPrepared < top.n then [Ballot(nPrepared, top.x)] else []) else []
    case Externalize(commit, _) => if top.x == commit.x then [top] else []
  }

  ghost predicate SuggestedUpTo(envs: Envelopes, top: Ballot, y: Ballot) {
    exists n :: n in envs && y in Suggested(top, envs[n].st)
  }

  ghost predicate SuggestedBy(envs: Envelopes, tops: seq<Ballot>, y: Ballot) {
    exists i :: 0 <= i < |tops| && SuggestedUpTo(envs, tops[i], y)
  }

  ghost predicate IsCandidate(envs: Envelopes, hint: Statement, y: Ballot) {
    SuggestedBy(envs, HintBallots(hint), y)
  }

  lemma OneMoreHint(envs: Envelopes, tops: seq<Ballot>, i: nat, y: Ballot)
    requires i < |tops|
    ensures SuggestedBy(envs, tops[..i + 1], y) <==> SuggestedBy(envs, tops[..i], y) || SuggestedUpTo(envs, tops[i], y)
  {
    HintKept(envs, tops, i, y);
    HintSplit(envs, tops, i, y);
  }

  lemma HintKept(envs: Envelopes, tops: seq<Ballot>, i: nat, y: Ballot)
    requires i < |tops|
    ensures SuggestedBy(envs, tops[..i], y) || SuggestedUpTo(envs, tops[i], y) ==> SuggestedBy(envs, tops[..i + 1], y)
  {
    var a, b := tops[..i], tops[..i + 1];
    if SuggestedBy(envs, a, y) {
      var j :| 0 <= j < |a| && SuggestedUpTo(envs, a[j], y);
      assert b[j] == a[j];
    }
    assert b[i] == tops[i];
  }

  lemma HintSplit(envs: Envelopes, tops: seq<Ballot>, i: nat, y: Ballot)
    requires i < |tops|
    ensures SuggestedBy(envs, tops[..i + 1], y) ==> SuggestedBy(envs, tops[..i], y) || SuggestedUpTo(envs, tops[i], y)
  {
    var b := tops[..i + 1];
    if SuggestedBy(envs, b, y) {
      var j :| 0 <= j < |b| && SuggestedUpTo(envs, b[j], y);
      assert b[j] == tops[j];
      HintPlaced(envs, tops, i, j, y);
    }
  }

  lemma HintPlaced(envs: Envelopes, tops: seq<Ballot>, i: nat, j: nat, y: Ballot)
    requires j <= i < |tops| && SuggestedUpTo(envs, tops[j], y)
    ensures SuggestedBy(envs, tops[..i], y) || SuggestedUpTo(envs, tops[i], y)
  {
    if j < i { assert tops[..i][j] == tops[j]; }
  }

  /** The counters at which a commit of v may begin or end, according to a statement. */
  function BoundariesOf(v: Value, st: Statement): seq<nat> {
    match st
    case Prepare(b, _, _, nC, nH) => if v == b.x && nC != 0 then [nC, nH] else []
    case Confirm(b, _, nCommit, nH) => if v == b.x then [nCommit, nH] else []
    case Externalize(commit, nH) => if v == commit.x then [commit.n, nH, UINT32_MAX] else []
  }

  ghost predicate IsBoundary(envs: Envelopes, v: Value, n: nat) {
    exists m :: m in envs && n in BoundariesOf(v, envs[m].st)
  }

  /** The value a hint may help to commit. */
  function CommitHint(hint: Statement): Option<Value> {
    match hint
    case Prepare(b, _, _, nC, _) => if nC != 0 then Some(b.x) else None
    case Confirm(b, _, _, _) => Some(b.x)
    case Externalize(commit, _) => Some(commit.x)
  }

  /** In descending order what comes later is lower. */
  lemma HighestFirst(s: seq<Ballot>, i: nat)
    requires Descending(s) && i <= |s|
    ensures i < |s| ==> forall y :: y in s ==> Leq(y, s[i]) || exists j :: 0 <= j < i && s[j] == y
    ensures i == |s| ==> forall y :: y in s ==> exists j :: 0 <= j < i && s[j] == y
  {
    forall y | y in s && i < |s| ensures Leq(y, s[i]) || exists j :: 0 <= j < i && s[j] == y {
      var k :| 0 <= k < |s| && s[k] == y;
    }
  }

  /** Accepting what may be accepted makes a difference. */
  lemma AcceptChanges(s: Node, y: Ballot)
    requires MayAcceptPrepared(s, y)
    ensures PreparedAccepted(s, y) != s
  {
  }

  // ---------- what an attempt to confirm finds ----------

  /** A candidate for h that a quorum has accepted as prepared. */
  ghost predicate Raises(q: QSet, s: Node, envs: Envelopes, hint: Statement, y: Ballot) {
    IsCandidate(envs, hint, y) && RatifiesPrepared(q, envs, y) && (s.h.Some? ==> !Leq(y, s.h.value))
  }

  ghost predicate IsHigh(q: QSet, s: Node, envs: Envelopes, hint: Statement, y: Ballot) {
    Raises(q, s, envs, hint, y) && forall z :: Raises(q, s, envs, hint, z) ==> Leq(z, y)
  }

  function BallotOr0(b: Option<Ballot>): Ballot {
    if b.Some? then b.value else Ballot(0, 0)
  }

  /** From newH down to y, which is not below the node's ballot, all candidates are confirmed as prepared. */
  ghost predicate Unbroken(q: QSet, s: Node, envs: Envelopes, hint: Statement, newH: Ballot, y: Ballot) {
    IsCandidate(envs, hint, y) && Leq(BallotOr0(s.b), y) && Leq(y, newH) &&
    forall z :: IsCandidate(envs, hint, z) && Leq(y, z) && Leq(z, newH) ==> RatifiesPrepared(q, envs, z)
  }

  /** The lowest of them. */
  ghost predicate IsLow(q: QSet, s: Node, envs: Envelopes, hint: Statement, newH: Ballot, y: Ballot) {
    Unbroken(q, s, envs, hint, newH, y) && forall z :: Unbroken(q, s, envs, hint, newH, z) ==> Leq(y, z)
  }

  /** Whether a commit is looked for at all. */
  predicate LooksForCommit(s: Node, newH: Ballot) {
    s.c.None? && (s.p.Some? ==> !LessAndIncompatible(newH, s.p.value)) &&
    (s.pp.Some? ==> !LessAndIncompatible(newH, s.pp.value))
  }

  /** The commit that goes with newH. */
  ghost predicate IsCommitFor(q: QSet, s: Node, envs: Envelopes, hint: Statement, newH: Ballot, newC: Option<Ballot>) {
    (newC.Some? ==> LooksForCommit(s, newH) && newC.value.n != 0 && IsLow(q, s, envs, hint, newH, newC.value)) &&
    (newC.None? && LooksForCommit(s, newH) ==> forall y :: IsLow(q, s, envs, hint, newH, y) ==> y.n == 0)
  }

  /** What can be told beforehand: if a candidate will be confirmed as prepared, it has the value of the commit voted
      for already or, where one is looked for, of the lowest candidate that is confirmed without a gap. */
  ghost predicate OneValueAhead(q: QSet, s: Node, envs: Envelopes, hint: Statement) {
    s.phase == PreparePhase && s.p.Some? ==> forall newH :: IsHigh(q, s, envs, hint, newH) ==>
      (s.b.None? ==> newH.n != 0) && (s.c.Some? ==> s.c.value.x == newH.x) &&
      (LooksForCommit(s, newH) ==> forall y :: IsLow(q, s, envs, hint, newH, y) && y.n != 0 ==> y.x == newH.x)
  }

  lemma HighOnce(q: QSet, s: Node, envs: Envelopes, hint: Statement, y: Ballot, z: Ballot)
    requires IsHigh(q, s, envs, hint, y) && IsHigh(q, s, envs, hint, z)
    ensures y == z
  {
  }

  lemma LowOnce(q: QSet, s: Node, envs: Envelopes, hint: Statement, newH: Ballot, y: Ballot, z: Ballot)
    requires IsLow(q, s, envs, hint, newH, y) && IsLow(q, s, envs, hint, newH, z)
    ensures y == z
  {
  }

  ghost predicate Lists(candidates: seq<Ballot>, envs: Envelopes, hint: Statement) {
    Descending(candidates) && forall y :: y in candidates <==> IsCandidate(envs, hint, y)
  }

  /** The first candidate in descending order that raises h is the highest. */
  lemma FirstIsHigh(q: QSet, s: Node, envs: Envelopes, hint: Statement, candidates: seq<Ballot>, i: nat)
    requires Lists(candidates, envs, hint) && i < |candidates| && Raises(q, s, envs, hint, candidates[i])
    requires forall j :: 0 <= j < i ==> !RatifiesPrepared(q, envs, candidates[j])
    ensures IsHigh(q, s, envs, hint, candidates[i])
  {
    HighestFirst(candidates, i);
  }

  /** If candidates above place i are not confirmed and what is at place i or below does not raise h, nothing does. */
  lemma NothingRaises(q: QSet, s: Node, envs: Envelopes, hint: Statement, candidates: seq<Ballot>, i: nat)
    requires Lists(candidates, envs, hint) && i <= |candidates|
    requires forall j :: 0 <= j < i ==> !RatifiesPrepared(q, envs, candidates[j])
    requires i < |candidates| ==> s.h.Some? && Leq(candidates[i], s.h.value)
    ensures forall y :: !Raises(q, s, envs, hint, y)
  {
    forall y | IsCandidate(envs, hint, y) && RatifiesPrepared(q, envs, y) ensures s.h.Some? && Leq(y, s.h.value) {
      var j := PlaceOf(candidates, y);
      if i < |candidates| { LeqThrough(y, candidates[i], s.h.value); }
    }
  }

  /** Candidates from place i to before place k are confirmed and not below b, the one at place k is not. */
  ghost predicate Stretch(q: QSet, envs: Envelopes, candidates: seq<Ballot>, i: nat, k: nat, b: Ballot) {
    i <= k <= |candidates| &&
    (forall j :: i <= j < k ==> Leq(b, candidates[j]) && RatifiesPrepared(q, envs, candidates[j])) &&
    (k < |candidates| ==> !(Leq(b, candidates[k]) && RatifiesPrepared(q, envs, candidates[k])))
  }

  /** In descending order, what lies between two places lies between their ballots. */
  lemma PlaceOf(s: seq<Ballot>, z: Ballot) returns (j: nat)
    requires Descending(s) && z in s
    ensures j < |s| && s[j] == z && forall i :: 0 <= i < |s| ==> (Leq(s[i], z) <==> j <= i)
  {
    j :| 0 <= j < |s| && s[j] == z;
  }

  lemma StretchUnbroken(q: QSet, s: Node, envs: Envelopes, hint: Statement, candidates: seq<Ballot>, i: nat, k: nat)
    requires Lists(candidates, envs, hint) && i < k && Stretch(q, envs, candidates, i, k, BallotOr0(s.b))
    ensures Unbroken(q, s, envs, hint, candidates[i], candidates[k - 1])
  {
    var newH, low := candidates[i], candidates[k - 1];
    forall z | IsCandidate(envs, hint, z) && Leq(low, z) && Leq(z, newH) ensures RatifiesPrepared(q, envs, z) {
      var j := PlaceOf(candidates, z);
      var l := PlaceOf(candidates, newH);
    }
    assert low in candidates;
  }

  /** A stretch that ends at place k ends above everything that is not part of it. */
  lemma EndsOf(s: seq<Ballot>, i: nat, k: nat, b: Ballot, z: Ballot, good: set<Ballot>)
    requires Descending(s) && i < k <= |s| && (k < |s| ==> !(Leq(b, s[k]) && s[k] in good))
    requires z in s && Leq(b, z) && Leq(z, s[i]) && forall y :: y in s && Leq(z, y) && Leq(y, s[i]) ==> y in good
    ensures Leq(s[k - 1], z)
  {
    var j := PlaceOf(s, z);
    if j >= k { LeqThrough(b, z, s[k]); }
  }

  lemma StretchEnds(q: QSet, s: Node, envs: Envelopes, hint: Statement, candidates: seq<Ballot>, i: nat, k: nat,
                    z: Ballot)
    requires Lists(candidates, envs, hint) && i < k && Stretch(q, envs, candidates, i, k, BallotOr0(s.b))
    requires Unbroken(q, s, envs, hint, candidates[i], z)
    ensures Leq(candidates[k - 1], z)
  {
    EndsOf(candidates, i, k, BallotOr0(s.b), z, set y | y in candidates && RatifiesPrepared(q, envs, y));
  }

  lemma StretchIsLow(q: QSet, s: Node, envs: Envelopes, hint: Statement, candidates: seq<Ballot>, i: nat, k: nat)
    requires Lists(candidates, envs, hint) && i < k && Stretch(q, envs, candidates, i, k, BallotOr0(s.b))
    ensures IsLow(q, s, envs, hint, candidates[i], candidates[k - 1])
  {
    StretchUnbroken(q, s, envs, hint, candidates, i, k);
    forall z | Unbroken(q, s, envs, hint, candidates[i], z) ensures Leq(candidates[k - 1], z) {
      StretchEnds(q, s, envs, hint, candidates, i, k, z);
    }
  }

  lemma NoStretch(q: QSet, s: Node, envs: Envelopes, hint: Statement, candidates: seq<Ballot>, i: nat)
    requires i < |candidates| && RatifiesPrepared(q, envs, candidates[i])
    requires Stretch(q, envs, candidates, i, i, BallotOr0(s.b))
    ensures forall y :: !IsLow(q, s, envs, hint, candidates[i], y)
  {
  }

  /** What the stretch down from newH ends in is the commit that goes with it. */
  lemma StretchIsCommit(q: QSet, s: Node, envs: Envelopes, hint: Statement, candidates: seq<Ballot>, i: nat, k: nat)
    requires Lists(candidates, envs, hint) && i < |candidates| && RatifiesPrepared(q, envs, candidates[i])
    requires Stretch(q, envs, candidates, i, k, BallotOr0(s.b)) && LooksForCommit(s, candidates[i])
    ensures k == i ==> IsCommitFor(q, s, envs, hint, candidates[i], None)
    ensures k > i ==> IsCommitFor(q, s, envs, hint, candidates[i],
        if candidates[k - 1].n != 0 then Some(candidates[k - 1]) else None)
  {
    if k == i {
      NoStretch(q, s, envs, hint, candidates, i);
    } else {
      StretchIsLow(q, s, envs, hint, candidates, i, k);
      forall y | IsLow(q, s, envs, hint, candidates[i], y) ensures y == candidates[k - 1] {
        LowOnce(q, s, envs, hint, candidates[i], y, candidates[k - 1]);
      }
    }
  }

  /** What the search finds may be confirmed. */
  lemma FoundMayConfirm(q: QSet, s: Node, envs: Envelopes, hint: Statement, newC: Option<Ballot>, newH: Ballot)
    requires s.phase == PreparePhase && s.p.Some? && IsHigh(q, s, envs, hint, newH)
    requires IsCommitFor(q, s, envs, hint, newH, newC)
    ensures MayConfirmPrepared(s, newC, newH)
  {
  }

  /** The lowest candidate, where a commit is looked for, is the commit. */
  lemma LowIsCommit(q: QSet, s: Node, envs: Envelopes, hint: Statement, newH: Ballot, newC: Option<Ballot>, y: Ballot)
    requires IsCommitFor(q, s, envs, hint, newH, newC) && LooksForCommit(s, newH) && IsLow(q, s, envs, hint, newH, y)
    requires y.n != 0
    ensures newC == Some(y)
  {
    if newC.Some? { LowOnce(q, s, envs, hint, newH, newC.value, y); }
  }

  /** Confirming what the search finds keeps the assertions exactly when that could be told beforehand. */
  lemma FoundConsistent(q: QSet, s: Node, envs: Envelopes, hint: Statement, newC: Option<Ballot>, newH: Ballot)
    requires Consistent(s) && s.phase == PreparePhase && s.p.Some?
    requires IsHigh(q, s, envs, hint, newH) && IsCommitFor(q, s, envs, hint, newH, newC)
    ensures Consistent(PreparedConfirmed(s, newC, newH)) <==> OneValueAhead(q, s, envs, hint)
  {
    ConfirmConsistent(s, newC, newH);
    forall y | IsHigh(q, s, envs, hint, y) ensures y == newH { HighOnce(q, s, envs, hint, y, newH); }
    forall y | newC.Some? && IsLow(q, s, envs, hint, newH, y)
      ensures y == newC.value
    {
      LowOnce(q, s, envs, hint, newH, y, newC.value);
    }
  }

  // ---------- what an attempt on a commit finds ----------

  /** Whether a commit of these counters is accepted, or confirmed. */
  ghost predicate Passes(q: QSet, envs: Envelopes, v: Value, lo: nat, hi: nat, ratify: bool) {
    if ratify then RatifiesCommitted(q, envs, v, lo, hi) else AcceptsCommitted(q, envs, v, lo, hi)
  }

  /** hi is the highest of the counters that passes by itself, lo the lowest that passes with it. */
  ghost predicate IsInterval(q: QSet, envs: Envelopes, v: Value, counters: seq<nat>, lo: nat, hi: nat, ratify: bool) {
    hi in counters && hi != 0 && Passes(q, envs, v, hi, hi, ratify) &&
    (forall n :: n in counters && n > hi ==> !Passes(q, envs, v, n, n, ratify)) &&
    lo in counters && lo <= hi && Passes(q, envs, v, lo, hi, ratify) &&
    (forall n :: n in counters && n < lo ==> !Passes(q, envs, v, n, hi, ratify))
  }

  /** The interval that the statements heard support. */
  ghost predicate IsCommitInterval(q: QSet, envs: Envelopes, v: Value, lo: nat, hi: nat, ratify: bool) {
    IsBoundary(envs, v, hi) && hi != 0 && Passes(q, envs, v, hi, hi, ratify) &&
    (forall n: nat :: IsBoundary(envs, v, n) && n > hi ==> !Passes(q, envs, v, n, n, ratify)) &&
    IsBoundary(envs, v, lo) && lo <= hi && Passes(q, envs, v, lo, hi, ratify) &&
    (forall n: nat :: IsBoundary(envs, v, n) && n < lo ==> !Passes(q, envs, v, n, hi, ratify))
  }

  lemma IntervalOnce(q: QSet, envs: Envelopes, v: Value, lo: nat, hi: nat, lo': nat, hi': nat, ratify: bool)
    requires IsCommitInterval(q, envs, v, lo, hi, ratify) && IsCommitInterval(q, envs, v, lo', hi', ratify)
    ensures lo == lo' && hi == hi'
  {
    assert hi == hi';
  }

  lemma QuorumGrows(q: QSet, qsets: map<NodeID, QSet>, a: set<NodeID>, b: set<NodeID>)
    requires a <= b && HasQuorum(q, qsets, a)
    ensures HasQuorum(q, qsets, b)
  {
    var u :| u <= a && IsQuorumOf(qsets, u) && Slice(q, u);
    assert u <= b;
  }

  /** An interval that passes does so too if its lower end is raised. */
  lemma PassesAbove(q: QSet, envs: Envelopes, v: Value, lo: nat, mid: nat, hi: nat, ratify: bool)
    requires lo <= mid && Passes(q, envs, v, lo, hi, ratify)
    ensures Passes(q, envs, v, mid, hi, ratify)
  {
    var a, b := HaveAccepted(envs, v, lo, hi), HaveAccepted(envs, v, mid, hi);
    var c, d := SupportCommit(envs, v, lo, hi), SupportCommit(envs, v, mid, hi);
    assert a <= b && c <= d;
    if ratify {
      QuorumGrows(q, QSetsOf(envs), a, b);
    } else if Blocked(q, a) {
      BlockedGrows(q, a, b);
    } else {
      QuorumGrows(q, QSetsOf(envs), c, d);
    }
  }

  /** The interval found among the first i counters. */
  ghost predicate SoFar(q: QSet, envs: Envelopes, v: Value, counters: seq<nat>, i: nat, lo: nat, hi: nat, ratify: bool)
    requires i <= |counters|
  {
    i > 0 && lo == counters[i - 1] && lo <= hi && hi in counters && Passes(q, envs, v, lo, hi, ratify) &&
    Passes(q, envs, v, hi, hi, ratify) && forall n :: n in counters && n > hi ==> !Passes(q, envs, v, n, n, ratify)
  }

  lemma StopsHere(q: QSet, envs: Envelopes, v: Value, counters: seq<nat>, i: nat, lo: nat, hi: nat, ratify: bool)
    requires DescendingCounters(counters) && i < |counters| && SoFar(q, envs, v, counters, i, lo, hi, ratify) && hi != 0
    requires !Passes(q, envs, v, counters[i], hi, ratify)
    ensures IsInterval(q, envs, v, counters, lo, hi, ratify)
  {
    forall n | n in counters && n < lo ensures !Passes(q, envs, v, n, hi, ratify) {
      var j :| 0 <= j < |counters| && counters[j] == n;
      assert n <= counters[i];
      if Passes(q, envs, v, n, hi, ratify) { PassesAbove(q, envs, v, n, counters[i], hi, ratify); }
    }
  }

  lemma Finished(q: QSet, envs: Envelopes, v: Value, counters: seq<nat>, lo: nat, hi: nat, ratify: bool)
    requires DescendingCounters(counters) && SoFar(q, envs, v, counters, |counters|, lo, hi, ratify) && hi != 0
    ensures IsInterval(q, envs, v, counters, lo, hi, ratify)
  {
    forall n | n in counters ensures n >= lo { var j :| 0 <= j < |counters| && counters[j] == n; }
  }

  /** The interval among the boundaries is the one that the statements support. */
  lemma OfBoundaries(q: QSet, envs: Envelopes, v: Value, counters: seq<nat>, lo: nat, hi: nat, ratify: bool)
    requires forall n :: n in counters <==> IsBoundary(envs, v, n)
    requires (exists n :: n in counters && n != 0 && Passes(q, envs, v, n, n, ratify)) ==>
        IsInterval(q, envs, v, counters, lo, hi, ratify)
    requires (forall n :: n in counters && n != 0 ==> !Passes(q, envs, v, n, n, ratify)) ==> lo == 0
    ensures lo != 0 ==> IsCommitInterval(q, envs, v, lo, hi, ratify)
    ensures forall n: nat, m: nat :: IsCommitInterval(q, envs, v, n, m, ratify) ==> n == lo && m == hi
    ensures forall n: nat :: IsBoundary(envs, v, n) && n != 0 && Passes(q, envs, v, n, n, ratify) ==>
              IsCommitInterval(q, envs, v, lo, hi, ratify) && n <= hi
  {
    forall n: nat, m: nat | IsCommitInterval(q, envs, v, n, m, ratify) ensures n == lo && m == hi {
      assert m in counters && m != 0 && Passes(q, envs, v, m, m, ratify);
      IntervalOnce(q, envs, v, lo, hi, n, m, ratify);
    }
  }

  /** Whether the hint may lead to a commit being accepted, and of what value. */
  predicate AcceptsHint(s: Node, hint: Statement, v: Value) {
    s.phase != ExternalizePhase && CommitHint(hint) == Some(v) &&
    (s.phase == ConfirmPhase ==> s.h.Some? && v == s.h.value.x)
  }

  /** Whether it may lead to one being confirmed. */
  predicate ConfirmsHint(s: Node, hint: Statement, v: Value) {
    s.phase == ConfirmPhase && s.h.Some? && s.c.Some? && !hint.Prepare? && CommitHint(hint) == Some(v) &&
    v == s.c.value.x
  }
}
