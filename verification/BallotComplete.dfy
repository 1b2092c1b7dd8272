/**
 * That looking at a few ballots and counters is enough: what the attempts of src/scp/BallotProtocol.cpp find is the
 * best there is among all ballots, and among all counters, that the statements heard support.
 */
module BallotComplete {
  import opened Quorum
  import opened Ballot
  import opened BallotSafety
  import opened BallotSearch

  // ---------- which ballots a hint is about ----------

  predicate Supports(y: Ballot, st: Statement) {
    VotesPrepare(y, st) || HasPrepared(y, st)
  }

  /** The hint supports the ballot. Where it does so whatever the counter, the counter still has 32 bits. */
  predicate Backs(hint: Statement, y: Ballot) {
    Supports(y, hint) && (hint.Prepare? || y.n <= UINT32_MAX)
  }

  /** Counters are of 32 bits. */
  predicate IsWord(st: Statement) {
    match st
    case Prepare(b, p, pp, nC, nH) =>
      b.n <= UINT32_MAX && (p.Some? ==> p.value.n <= UINT32_MAX) && (pp.Some? ==> pp.value.n <= UINT32_MAX) &&
      nC <= UINT32_MAX && nH <= UINT32_MAX
    case Confirm(b, nPrepared, nCommit, nH) =>
      b.n <= UINT32_MAX && nPrepared <= UINT32_MAX && nCommit <= UINT32_MAX && nH <= UINT32_MAX
    case Externalize(commit, nH) => commit.n <= UINT32_MAX && nH <= UINT32_MAX
  }

  /** The hint is a statement that was heard, and is still the last of its sender. */
  ghost predicate Hears(envs: Envelopes, hint: Statement) {
    exists m :: m in envs && envs[m].st == hint
  }

  lemma BackedByTop(hint: Statement, y: Ballot) returns (i: nat)
    requires Backs(hint, y)
    ensures i < |HintBallots(hint)| && LessAndCompatible(y, HintBallots(hint)[i])
  {
    var tops := HintBallots(hint);
    match hint
    case Prepare(b, p, pp, _, _) =>
      if LessAndCompatible(y, b) {
        i := 0;
      } else if p.Some? && LessAndCompatible(y, p.value) {
        i := 1;
      } else {
        i := |tops| - 1;
      }
    case Confirm(_, _, _, _) => i := 1;
    case Externalize(_, _) => i := 0;
  }

  lemma BelowTopIsBacked(hint: Statement, top: Ballot, y: Ballot)
    requires IsWord(hint) && top in HintBallots(hint) && LessAndCompatible(y, top)
    ensures Backs(hint, y)
  {
  }

  lemma SuggestedIsBelow(top: Ballot, st: Statement, y: Ballot)
    requires y in Suggested(top, st)
    ensures LessAndCompatible(y, top)
  {
  }

  lemma UpToIsBelow(envs: Envelopes, top: Ballot, y: Ballot)
    requires SuggestedUpTo(envs, top, y)
    ensures LessAndCompatible(y, top)
  {
    var m :| m in envs && y in Suggested(top, envs[m].st);
    SuggestedIsBelow(top, envs[m].st, y);
  }

  lemma CandidateIsBacked(envs: Envelopes, hint: Statement, y: Ballot)
    requires IsCandidate(envs, hint, y) && IsWord(hint)
    ensures Backs(hint, y)
  {
    var tops := HintBallots(hint);
    var i :| 0 <= i < |tops| && SuggestedUpTo(envs, tops[i], y);
    UpToIsBelow(envs, tops[i], y);
    BelowTopIsBacked(hint, tops[i], y);
  }

  /** A hint that was heard suggests the ballots it names. */
  lemma TopIsCandidate(envs: Envelopes, hint: Statement, i: nat)
    requires Hears(envs, hint) && i < |HintBallots(hint)|
    ensures SuggestedUpTo(envs, HintBallots(hint)[i], HintBallots(hint)[i])
  {
    var m :| m in envs && envs[m].st == hint;
    var top := HintBallots(hint)[i];
    assert top in Suggested(top, envs[m].st);
  }

  // ---------- support changes only at candidates ----------

  /** No lower ballot that is suggested is compatible with y and not below it. */
  ghost predicate IsLeast(envs: Envelopes, top: Ballot, y: Ballot, z: Ballot) {
    SuggestedUpTo(envs, top, z) && LessAndCompatible(y, z) && LessAndCompatible(z, top) &&
    forall w :: SuggestedUpTo(envs, top, w) && LessAndCompatible(y, w) ==> z.n <= w.n
  }

  lemma {:induction false} LeastAbove(envs: Envelopes, top: Ballot, y: Ballot, z: Ballot) returns (w: Ballot)
    requires SuggestedUpTo(envs, top, z) && LessAndCompatible(y, z)
    ensures IsLeast(envs, top, y, w)
    decreases z.n
  {
    if u :| SuggestedUpTo(envs, top, u) && LessAndCompatible(y, u) && u.n < z.n {
      w := LeastAbove(envs, top, y, u);
    } else {
      w := z;
      UpToIsBelow(envs, top, z);
    }
  }

  lemma SupportKept(top: Ballot, st: Statement, y: Ballot, z: Ballot)
    requires LessAndCompatible(y, z) && LessAndCompatible(z, top)
    requires forall w :: w in Suggested(top, st) && LessAndCompatible(y, w) ==> z.n <= w.n
    ensures HasPrepared(y, st) ==> HasPrepared(z, st)
    ensures VotesPrepare(y, st) ==> VotesPrepare(z, st)
  {
    match st
    case Prepare(b, p, pp, _, _) =>
      assert LessAndCompatible(b, top) ==> b in Suggested(top, st);
      assert p.Some? && LessAndCompatible(p.value, top) ==> p.value in Suggested(top, st);
      assert pp.Some? && LessAndCompatible(pp.value, top) ==> pp.value in Suggested(top, st);
    case Confirm(b, nPrepared, _, _) =>
      assert top.x == b.x && nPrepared < top.n ==> Ballot(nPrepared, top.x) in Suggested(top, st);
    case Externalize(_, _) =>
  }

  /** Whoever supports y supports the next candidate up. */
  lemma LeastHasAll(q: QSet, envs: Envelopes, top: Ballot, y: Ballot, z: Ballot)
    requires IsLeast(envs, top, y, z)
    ensures AcceptsPrepared(q, envs, y) ==> AcceptsPrepared(q, envs, z)
    ensures RatifiesPrepared(q, envs, y) ==> RatifiesPrepared(q, envs, z)
  {
    forall n | n in envs
      ensures HasPrepared(y, envs[n].st) ==> HasPrepared(z, envs[n].st)
      ensures VotesPrepare(y, envs[n].st) ==> VotesPrepare(z, envs[n].st)
    {
      SupportKept(top, envs[n].st, y, z);
    }
    var a, b := HavePrepared(envs, y), HavePrepared(envs, z);
    var c, d := SupportPrepare(envs, y), SupportPrepare(envs, z);
    assert a <= b && c <= d;
    if RatifiesPrepared(q, envs, y) { QuorumGrows(q, QSetsOf(envs), a, b); }
    if Blocked(q, a) {
      BlockedGrows(q, a, b);
    } else if HasQuorum(q, QSetsOf(envs), c) {
      QuorumGrows(q, QSetsOf(envs), c, d);
    }
  }

  /** Above every ballot that the hint backs there is a candidate with at least the same support. */
  lemma CandidateAbove(q: QSet, envs: Envelopes, hint: Statement, y: Ballot) returns (z: Ballot)
    requires Hears(envs, hint) && Backs(hint, y)
    ensures IsCandidate(envs, hint, z) && LessAndCompatible(y, z)
    ensures AcceptsPrepared(q, envs, y) ==> AcceptsPrepared(q, envs, z)
    ensures RatifiesPrepared(q, envs, y) ==> RatifiesPrepared(q, envs, z)
  {
    var i := BackedByTop(hint, y);
    var top := HintBallots(hint)[i];
    TopIsCandidate(envs, hint, i);
    z := LeastAbove(envs, top, y, top);
    LeastHasAll(q, envs, top, y, z);
  }

  // ---------- accepting a ballot as prepared ----------

  /** A ballot that the hint is about and that can be accepted. */
  ghost predicate Choice(q: QSet, s: Node, envs: Envelopes, hint: Statement, y: Ballot) {
    Backs(hint, y) && MayAcceptPrepared(s, y) && AcceptsPrepared(q, envs, y)
  }

  /** The highest of them was chosen, or there is none. */
  ghost predicate ChoseBest(q: QSet, s: Node, envs: Envelopes, hint: Statement, didWork: bool, y: Ballot) {
    (didWork ==> Choice(q, s, envs, hint, y)) && forall z :: Choice(q, s, envs, hint, z) ==> didWork && Leq(z, y)
  }

  lemma MayAcceptAbove(s: Node, y: Ballot, z: Ballot)
    requires MayAcceptPrepared(s, y) && LessAndCompatible(y, z)
    ensures MayAcceptPrepared(s, z)
  {
  }

  /** The highest candidate is the highest ballot. */
  lemma AcceptComplete(q: QSet, s: Node, envs: Envelopes, hint: Statement, didWork: bool, y: Ballot)
    requires Hears(envs, hint) && IsWord(hint)
    requires didWork ==> IsCandidate(envs, hint, y) && MayAcceptPrepared(s, y) && AcceptsPrepared(q, envs, y)
    requires forall z :: IsCandidate(envs, hint, z) && MayAcceptPrepared(s, z) && AcceptsPrepared(q, envs, z) ==>
                           didWork && Leq(z, y)
    ensures ChoseBest(q, s, envs, hint, didWork, y)
  {
    if didWork { CandidateIsBacked(envs, hint, y); }
    forall z | Choice(q, s, envs, hint, z) ensures didWork && Leq(z, y) {
      var w := CandidateAbove(q, envs, hint, z);
      MayAcceptAbove(s, z, w);
      LeqThrough(z, w, y);
    }
  }

  // ---------- confirming a ballot as prepared ----------

  /** A ballot that the hint is about, that is confirmed and raises h. */
  ghost predicate Raise(q: QSet, s: Node, envs: Envelopes, hint: Statement, y: Ballot) {
    Backs(hint, y) && RatifiesPrepared(q, envs, y) && (s.h.Some? ==> !Leq(y, s.h.value))
  }

  /** The highest of them was confirmed, or there is none. */
  ghost predicate ChoseHighest(q: QSet, s: Node, envs: Envelopes, hint: Statement, didWork: bool, y: Ballot) {
    (didWork ==> Raise(q, s, envs, hint, y)) && forall z :: Raise(q, s, envs, hint, z) ==> didWork && Leq(z, y)
  }

  lemma RaiseAbove(q: QSet, s: Node, envs: Envelopes, hint: Statement, y: Ballot) returns (z: Ballot)
    requires Hears(envs, hint) && Raise(q, s, envs, hint, y)
    ensures Raises(q, s, envs, hint, z) && Leq(y, z)
  {
    z := CandidateAbove(q, envs, hint, y);
    if s.h.Some? { LeqThrough(y, z, s.h.value); }
  }

  /** The highest candidate is the highest ballot. */
  lemma ConfirmComplete(q: QSet, s: Node, envs: Envelopes, hint: Statement, didWork: bool, y: Ballot)
    requires Hears(envs, hint) && IsWord(hint)
    requires if didWork then IsHigh(q, s, envs, hint, y) else forall z :: !Raises(q, s, envs, hint, z)
    ensures ChoseHighest(q, s, envs, hint, didWork, y)
  {
    if didWork { CandidateIsBacked(envs, hint, y); }
    forall z | Raise(q, s, envs, hint, z) ensures didWork && Leq(z, y) {
      var w := RaiseAbove(q, s, envs, hint, z);
      LeqThrough(z, w, y);
    }
  }

  // ---------- what candidates are ----------

  function Succ(y: Ballot): Ballot {
    Ballot(y.n + 1, y.x)
  }

  /** The statement votes for, or has accepted, y but not the next ballot. */
  predicate Stops(st: Statement, y: Ballot) {
    (VotesPrepare(y, st) && !VotesPrepare(Succ(y), st)) || (HasPrepared(y, st) && !HasPrepared(Succ(y), st))
  }

  /** It votes for every ballot of that value. */
  ghost predicate NeverStops(st: Statement, y: Ballot) {
    forall n: nat :: VotesPrepare(Ballot(n, y.x), st)
  }

  /** Where the hint stops, if need be at the last counter. */
  ghost predicate IsTop(hint: Statement, y: Ballot) {
    Stops(hint, y) || (NeverStops(hint, y) && y.n == UINT32_MAX)
  }

  /** Up to top, where the statement stops. */
  ghost predicate StopsUpTo(top: Ballot, st: Statement, y: Ballot) {
    LessAndCompatible(y, top) && (Stops(st, y) || (y == top && NeverStops(st, y)))
  }

  lemma WhoNeverStops(st: Statement, y: Ballot)
    ensures NeverStops(st, y) <==> !st.Prepare? && VotesPrepare(y, st)
  {
    if st.Prepare? { assert !VotesPrepare(Ballot(st.ballot.n + 1, y.x), st); }
  }

  lemma TopsAreHints(hint: Statement, y: Ballot)
    requires IsSane(hint)
    ensures IsTop(hint, y) <==> y in HintBallots(hint)
  {
    WhoNeverStops(hint, y);
    var tops := HintBallots(hint);
    match hint
    case Prepare(b, p, pp, _, _) =>
      assert tops[0] == b && (p.Some? ==> p.value in tops) && (pp.Some? ==> tops[|tops| - 1] == pp.value);
    case Confirm(_, _, _, _) => assert |tops| == 2;
    case Externalize(_, _) => assert |tops| == 1;
  }

  lemma StopsAreSuggested(top: Ballot, st: Statement, y: Ballot)
    requires IsSane(st)
    ensures StopsUpTo(top, st, y) <==> y in Suggested(top, st)
  {
    WhoNeverStops(st, y);
    match st
    case Prepare(b, p, pp, _, _) => SuggestedByPrepare(top, st, y);
    case Confirm(_, _, _, _) =>
    case Externalize(_, _) =>
  }

  lemma SuggestedByPrepare(top: Ballot, st: Statement, y: Ballot)
    requires st.Prepare?
    ensures y in Suggested(top, st) <==>
            LessAndCompatible(y, top) && (y == st.ballot || Some(y) == st.prepared || Some(y) == st.preparedPrime)
  {
    var b := if LessAndCompatible(st.ballot, top) then [st.ballot] else [];
    var p := if st.prepared.Some? && LessAndCompatible(st.prepared.value, top) then [st.prepared.value] else [];
    var pp := if st.preparedPrime.Some? && LessAndCompatible(st.preparedPrime.value, top)
              then [st.preparedPrime.value] else [];
    assert Suggested(top, st) == b + p + pp;
  }

  /** Every statement heard has passed `isStatementSane`. */
  ghost predicate AllSane(envs: Envelopes) {
    forall m :: m in envs ==> IsSane(envs[m].st) && IsWord(envs[m].st)
  }

  ghost predicate StopsFor(envs: Envelopes, top: Ballot, y: Ballot) {
    exists m :: m in envs && StopsUpTo(top, envs[m].st, y)
  }

  /** Candidates are where, up to a ballot at which the hint stops, some statement heard stops. */
  lemma CandidatesAreStops(envs: Envelopes, hint: Statement, y: Ballot)
    requires AllSane(envs) && IsSane(hint)
    ensures IsCandidate(envs, hint, y) <==> exists top :: IsTop(hint, top) && StopsFor(envs, top, y)
  {
    var tops := HintBallots(hint);
    if IsCandidate(envs, hint, y) {
      var i :| 0 <= i < |tops| && SuggestedUpTo(envs, tops[i], y);
      var m :| m in envs && y in Suggested(tops[i], envs[m].st);
      TopsAreHints(hint, tops[i]);
      StopsAreSuggested(tops[i], envs[m].st, y);
      assert StopsFor(envs, tops[i], y);
    }
    if top :| IsTop(hint, top) && StopsFor(envs, top, y) {
      var m :| m in envs && StopsUpTo(top, envs[m].st, y);
      TopsAreHints(hint, top);
      StopsAreSuggested(top, envs[m].st, y);
      var i :| 0 <= i < |tops| && tops[i] == top;
      assert SuggestedUpTo(envs, tops[i], y);
    }
  }

  // ---------- which counters a commit can have ----------

  lemma UpKept(v: Value, st: Statement, n: nat, m: nat)
    requires n <= m && forall b :: b in BoundariesOf(v, st) && b >= n ==> m <= b
    ensures AcceptsCommit(v, n, n, st) ==> AcceptsCommit(v, m, m, st)
    ensures VotesCommit(v, n, n, st) ==> VotesCommit(v, m, m, st)
  {
    if st.Prepare? && v == st.ballot.x && st.nC != 0 { assert st.nH in BoundariesOf(v, st); }
    if st.Confirm? && v == st.ballot.x { assert st.nH in BoundariesOf(v, st); }
  }

  lemma DownKept(v: Value, st: Statement, n: nat, lo: nat, hi: nat)
    requires lo <= n && forall b :: b in BoundariesOf(v, st) && b <= n ==> b <= lo
    ensures AcceptsCommit(v, n, hi, st) ==> AcceptsCommit(v, lo, hi, st)
    ensures VotesCommit(v, n, hi, st) ==> VotesCommit(v, lo, hi, st)
  {
    if BoundariesOf(v, st) != [] { assert BoundariesOf(v, st)[0] in BoundariesOf(v, st); }
  }

  /** The lowest boundary from n on. */
  ghost predicate IsNext(envs: Envelopes, v: Value, n: nat, m: nat) {
    IsBoundary(envs, v, m) && n <= m && forall b: nat :: IsBoundary(envs, v, b) && b >= n ==> m <= b
  }

  /** The highest boundary up to n. */
  ghost predicate IsLast(envs: Envelopes, v: Value, n: nat, m: nat) {
    IsBoundary(envs, v, m) && m <= n && forall b: nat :: IsBoundary(envs, v, b) && b <= n ==> b <= m
  }

  lemma {:induction false} NextBoundary(envs: Envelopes, v: Value, n: nat, b: nat) returns (m: nat)
    requires IsBoundary(envs, v, b) && n <= b
    ensures IsNext(envs, v, n, m)
    decreases b
  {
    if c: nat :| IsBoundary(envs, v, c) && n <= c < b {
      m := NextBoundary(envs, v, n, c);
    } else {
      m := b;
    }
  }

  lemma {:induction false} LastBoundary(envs: Envelopes, v: Value, n: nat, b: nat) returns (m: nat)
    requires IsBoundary(envs, v, b) && b <= n
    ensures IsLast(envs, v, n, m)
    decreases n - b
  {
    if c: nat :| IsBoundary(envs, v, c) && b < c <= n {
      m := LastBoundary(envs, v, n, c);
    } else {
      m := b;
    }
  }

  /** More support for the one commit than for the other. */
  ghost predicate Wider(envs: Envelopes, v: Value, lo: nat, hi: nat, lo': nat, hi': nat) {
    HaveAccepted(envs, v, lo, hi) <= HaveAccepted(envs, v, lo', hi') &&
    SupportCommit(envs, v, lo, hi) <= SupportCommit(envs, v, lo', hi')
  }

  lemma WiderPasses(q: QSet, envs: Envelopes, v: Value, lo: nat, hi: nat, lo': nat, hi': nat, ratify: bool)
    requires Wider(envs, v, lo, hi, lo', hi') && Passes(q, envs, v, lo, hi, ratify)
    ensures Passes(q, envs, v, lo', hi', ratify)
  {
    var a, b := HaveAccepted(envs, v, lo, hi), HaveAccepted(envs, v, lo', hi');
    var c, d := SupportCommit(envs, v, lo, hi), SupportCommit(envs, v, lo', hi');
    if ratify {
      QuorumGrows(q, QSetsOf(envs), a, b);
    } else if Blocked(q, a) {
      BlockedGrows(q, a, b);
    } else {
      QuorumGrows(q, QSetsOf(envs), c, d);
    }
  }

  lemma NextPasses(q: QSet, envs: Envelopes, v: Value, n: nat, m: nat, ratify: bool)
    requires Passes(q, envs, v, n, n, ratify) && IsNext(envs, v, n, m)
    ensures Passes(q, envs, v, m, m, ratify)
  {
    forall k | k in envs
      ensures AcceptsCommit(v, n, n, envs[k].st) ==> AcceptsCommit(v, m, m, envs[k].st)
      ensures VotesCommit(v, n, n, envs[k].st) ==> VotesCommit(v, m, m, envs[k].st)
    {
      forall b | b in BoundariesOf(v, envs[k].st) && b >= n ensures m <= b { assert IsBoundary(envs, v, b); }
      UpKept(v, envs[k].st, n, m);
    }
    WiderPasses(q, envs, v, n, n, m, m, ratify);
  }

  lemma LastPasses(q: QSet, envs: Envelopes, v: Value, n: nat, lo: nat, hi: nat, ratify: bool)
    requires Passes(q, envs, v, n, hi, ratify) && IsLast(envs, v, n, lo)
    ensures Passes(q, envs, v, lo, hi, ratify)
  {
    forall k | k in envs
      ensures AcceptsCommit(v, n, hi, envs[k].st) ==> AcceptsCommit(v, lo, hi, envs[k].st)
      ensures VotesCommit(v, n, hi, envs[k].st) ==> VotesCommit(v, lo, hi, envs[k].st)
    {
      forall b | b in BoundariesOf(v, envs[k].st) && b <= n ensures b <= lo { assert IsBoundary(envs, v, b); }
      DownKept(v, envs[k].st, n, lo, hi);
    }
    WiderPasses(q, envs, v, n, hi, lo, hi, ratify);
  }

  lemma NobodyIsNoQuorum(q: QSet, qsets: map<NodeID, QSet>)
    ensures !HasQuorum(q, qsets, {})
  {
    NothingSlices(q);
    forall u: set<NodeID> | u <= {} ensures !Slice(q, u) { assert u == {}; }
  }

  /** Nothing passes without somebody's support. */
  lemma Supporter(q: QSet, envs: Envelopes, v: Value, lo: nat, hi: nat, ratify: bool) returns (m: NodeID)
    requires Passes(q, envs, v, lo, hi, ratify)
    ensures m in envs && (AcceptsCommit(v, lo, hi, envs[m].st) || (!ratify && VotesCommit(v, lo, hi, envs[m].st)))
  {
    var a, c := HaveAccepted(envs, v, lo, hi), SupportCommit(envs, v, lo, hi);
    var who := if ratify then a else if Blocked(q, a) then a else c;
    NothingBlocks(q);
    NobodyIsNoQuorum(q, QSetsOf(envs));
    assert who != {};
    m :| m in who;
  }

  /** The lowest boundary that passes with hi is the lowest counter that does. */
  lemma LowestBoundary(q: QSet, envs: Envelopes, v: Value, n: nat, hi: nat, ratify: bool) returns (lo: nat)
    requires Passes(q, envs, v, n, hi, ratify)
    ensures lo <= n && IsBoundary(envs, v, lo) && Passes(q, envs, v, lo, hi, ratify)
  {
    var m := Supporter(q, envs, v, n, hi, ratify);
    var b := BoundariesOf(v, envs[m].st)[0];
    assert b <= n && b in BoundariesOf(v, envs[m].st) && IsBoundary(envs, v, b);
    lo := LastBoundary(envs, v, n, b);
    LastPasses(q, envs, v, n, lo, hi, ratify);
  }

  // ---------- votes without end ----------

  function Confirming(envs: Envelopes, v: Value): set<NodeID> {
    set m | m in envs && envs[m].st.Confirm? && envs[m].st.ballot.x == v
  }

  /** The statement is about the last counter. */
  predicate AtTheEnd(v: Value, st: Statement) {
    AcceptsCommit(v, UINT32_MAX, UINT32_MAX, st) || (st.Prepare? && VotesCommit(v, UINT32_MAX, UINT32_MAX, st))
  }

  /** Confirm statements of v, which vote for all counters, are a quorum by themselves, and nothing heard about v goes
      as far as the last counter. */
  ghost predicate OpenEnded(q: QSet, envs: Envelopes, v: Value) {
    HasQuorum(q, QSetsOf(envs), Confirming(envs, v)) && forall m :: m in envs ==> !AtTheEnd(v, envs[m].st)
  }

  /** Where a statement about the commit of v ends. */
  predicate EndsAt(v: Value, st: Statement, n: nat) {
    (AcceptsCommit(v, n, n, st) && !AcceptsCommit(v, n + 1, n + 1, st)) ||
    (VotesCommit(v, n, n, st) && !VotesCommit(v, n + 1, n + 1, st))
  }

  ghost predicate SomeEnd(envs: Envelopes, v: Value, n: nat) {
    exists m :: m in envs && EndsAt(v, envs[m].st, n)
  }

  ghost predicate IsHighestEnd(envs: Envelopes, v: Value, n: nat) {
    SomeEnd(envs, v, n) && forall k: nat :: SomeEnd(envs, v, k) ==> k <= n
  }

  /** The counter to look for: the highest that passes by itself, except that votes without end are followed only as far
      as some statement goes. */
  ghost predicate IsHighCounter(q: QSet, envs: Envelopes, v: Value, hi: nat, ratify: bool) {
    if !ratify && OpenEnded(q, envs, v) then IsHighestEnd(envs, v, hi)
    else 0 < hi <= UINT32_MAX && Passes(q, envs, v, hi, hi, ratify) &&
         forall n: nat :: hi < n <= UINT32_MAX ==> !Passes(q, envs, v, n, n, ratify)
  }

  ghost predicate IsLowCounter(q: QSet, envs: Envelopes, v: Value, lo: nat, hi: nat, ratify: bool) {
    Passes(q, envs, v, lo, hi, ratify) && forall n: nat :: n < lo ==> !Passes(q, envs, v, n, hi, ratify)
  }

  lemma BelowAll(envs: Envelopes, v: Value, m: NodeID, n: nat)
    requires m in envs && forall b: nat :: IsBoundary(envs, v, b) ==> b < n
    ensures forall b :: b in BoundariesOf(v, envs[m].st) ==> b < n
  {
    forall b | b in BoundariesOf(v, envs[m].st) ensures b < n { assert IsBoundary(envs, v, b); }
  }

  lemma BelowMeans(v: Value, st: Statement, n: nat)
    requires n <= UINT32_MAX && forall b :: b in BoundariesOf(v, st) ==> b < n
    ensures !AcceptsCommit(v, n, n, st) && !AtTheEnd(v, st)
    ensures VotesCommit(v, n, n, st) ==> st.Confirm? && st.ballot.x == v
  {
    if st.Prepare? && v == st.ballot.x && st.nC != 0 { assert st.nH in BoundariesOf(v, st); }
    if st.Confirm? && v == st.ballot.x { assert st.nH in BoundariesOf(v, st); }
    assert st.Externalize? && v == st.commit.x ==> UINT32_MAX in BoundariesOf(v, st);
  }

  /** If no boundary is as high as a counter that passes, the votes are without end. */
  lemma BeyondBoundaries(q: QSet, envs: Envelopes, v: Value, n: nat, ratify: bool)
    requires n <= UINT32_MAX && Passes(q, envs, v, n, n, ratify)
    requires forall b: nat :: IsBoundary(envs, v, b) ==> b < n
    ensures !ratify && OpenEnded(q, envs, v)
  {
    forall m | m in envs
      ensures !AcceptsCommit(v, n, n, envs[m].st) && !AtTheEnd(v, envs[m].st)
      ensures VotesCommit(v, n, n, envs[m].st) ==> m in Confirming(envs, v)
    {
      BelowAll(envs, v, m, n);
      BelowMeans(v, envs[m].st, n);
    }
    assert HaveAccepted(envs, v, n, n) == {};
    NothingBlocks(q);
    NobodyIsNoQuorum(q, QSetsOf(envs));
    QuorumGrows(q, QSetsOf(envs), SupportCommit(envs, v, n, n), Confirming(envs, v));
  }

  /** Ends are boundaries; where nothing goes to the last counter, boundaries are not above the ends. */
  lemma EndIsBoundary(v: Value, st: Statement, n: nat)
    requires EndsAt(v, st, n)
    ensures n in BoundariesOf(v, st)
  {
  }

  lemma BoundaryHasEnd(v: Value, st: Statement, b: nat) returns (n: nat)
    requires IsSane(st) && IsWord(st) && b in BoundariesOf(v, st) && !AtTheEnd(v, st)
    ensures b <= n < UINT32_MAX && EndsAt(v, st, n)
  {
    n := st.nH;
  }

  /** With votes without end every counter from the boundaries on passes. */
  lemma OpenEndedPasses(q: QSet, envs: Envelopes, v: Value, n: nat)
    requires OpenEnded(q, envs, v) && forall b: nat :: IsBoundary(envs, v, b) ==> b <= n
    ensures Passes(q, envs, v, n, n, false)
  {
    forall m | m in Confirming(envs, v) ensures VotesCommit(v, n, n, envs[m].st) {
      assert envs[m].st.nCommit in BoundariesOf(v, envs[m].st) && IsBoundary(envs, v, envs[m].st.nCommit);
    }
    QuorumGrows(q, QSetsOf(envs), Confirming(envs, v), SupportCommit(envs, v, n, n));
  }

  /** There is a boundary, and with votes without end the highest is the highest end. */
  lemma OpenEndedTop(q: QSet, envs: Envelopes, v: Value) returns (top: nat)
    requires AllSane(envs) && OpenEnded(q, envs, v)
    ensures IsLast(envs, v, UINT32_MAX, top) && IsHighestEnd(envs, v, top) && top < UINT32_MAX
    ensures forall b: nat :: IsBoundary(envs, v, b) ==> b <= top
  {
    NobodyIsNoQuorum(q, QSetsOf(envs));
    var m :| m in Confirming(envs, v);
    assert envs[m].st.nCommit in BoundariesOf(v, envs[m].st) && IsBoundary(envs, v, envs[m].st.nCommit);
    top := LastBoundary(envs, v, UINT32_MAX, envs[m].st.nCommit);
    forall b: nat | IsBoundary(envs, v, b) ensures b <= top { BoundaryIsWord(envs, v, b); }
    var k :| k in envs && top in BoundariesOf(v, envs[k].st);
    var n := BoundaryHasEnd(v, envs[k].st, top);
    EndIsBoundary(v, envs[k].st, n);
    assert IsBoundary(envs, v, n) && n == top && SomeEnd(envs, v, top);
    forall i: nat | SomeEnd(envs, v, i) ensures i <= top {
      var j :| j in envs && EndsAt(v, envs[j].st, i);
      EndIsBoundary(v, envs[j].st, i);
      assert IsBoundary(envs, v, i);
    }
  }

  lemma BoundaryIsWord(envs: Envelopes, v: Value, b: nat)
    requires AllSane(envs) && IsBoundary(envs, v, b)
    ensures b <= UINT32_MAX
  {
    var m :| m in envs && b in BoundariesOf(v, envs[m].st);
  }

  /** The highest boundary that passes is the counter to look for. */
  lemma HighComplete(q: QSet, envs: Envelopes, v: Value, hi: nat, ratify: bool)
    requires AllSane(envs) && IsBoundary(envs, v, hi) && hi != 0 && Passes(q, envs, v, hi, hi, ratify)
    requires forall n: nat :: IsBoundary(envs, v, n) && n > hi ==> !Passes(q, envs, v, n, n, ratify)
    ensures IsHighCounter(q, envs, v, hi, ratify)
  {
    BoundaryIsWord(envs, v, hi);
    if !ratify && OpenEnded(q, envs, v) {
      var top := OpenEndedTop(q, envs, v);
      OpenEndedPasses(q, envs, v, top);
    } else {
      forall n: nat | hi < n <= UINT32_MAX ensures !Passes(q, envs, v, n, n, ratify) {
        if Passes(q, envs, v, n, n, ratify) { NothingAbove(q, envs, v, hi, n, ratify); }
      }
    }
  }

  lemma NothingAbove(q: QSet, envs: Envelopes, v: Value, hi: nat, n: nat, ratify: bool)
    requires !(!ratify && OpenEnded(q, envs, v)) && n <= UINT32_MAX && Passes(q, envs, v, n, n, ratify)
    requires forall b: nat :: IsBoundary(envs, v, b) && b > hi ==> !Passes(q, envs, v, b, b, ratify)
    ensures n <= hi
  {
    if b: nat :| IsBoundary(envs, v, b) && n <= b {
      var m := NextBoundary(envs, v, n, b);
      NextPasses(q, envs, v, n, m, ratify);
    } else {
      BeyondBoundaries(q, envs, v, n, ratify);
    }
  }

  lemma LowComplete(q: QSet, envs: Envelopes, v: Value, lo: nat, hi: nat, ratify: bool)
    requires Passes(q, envs, v, lo, hi, ratify)
    requires forall n: nat :: IsBoundary(envs, v, n) && n < lo ==> !Passes(q, envs, v, n, hi, ratify)
    ensures IsLowCounter(q, envs, v, lo, hi, ratify)
  {
    forall n: nat | n < lo ensures !Passes(q, envs, v, n, hi, ratify) {
      if Passes(q, envs, v, n, hi, ratify) { var b := LowestBoundary(q, envs, v, n, hi, ratify); }
    }
  }

  lemma HighCounterOnce(q: QSet, envs: Envelopes, v: Value, a: nat, b: nat, ratify: bool)
    requires IsHighCounter(q, envs, v, a, ratify) && IsHighCounter(q, envs, v, b, ratify)
    ensures a == b
  {
  }

  /** As soon as any counter passes there is one to look for, and it passes and is a boundary. */
  lemma SomeCounter(q: QSet, envs: Envelopes, v: Value, n: nat, ratify: bool) returns (hi: nat)
    requires AllSane(envs) && 0 < n <= UINT32_MAX && Passes(q, envs, v, n, n, ratify)
    ensures IsHighCounter(q, envs, v, hi, ratify) && IsBoundary(envs, v, hi) && Passes(q, envs, v, hi, hi, ratify)
  {
    if !ratify && OpenEnded(q, envs, v) {
      hi := OpenEndedTop(q, envs, v);
      OpenEndedPasses(q, envs, v, hi);
    } else {
      hi := HighestPassing(q, envs, v, n, ratify);
      var m := SomeBoundary(q, envs, v, hi, ratify);
      NextPasses(q, envs, v, hi, m, ratify);
      BoundaryIsWord(envs, v, m);
      assert m == hi;
    }
  }

  lemma SomeBoundary(q: QSet, envs: Envelopes, v: Value, n: nat, ratify: bool) returns (m: nat)
    requires !(!ratify && OpenEnded(q, envs, v)) && n <= UINT32_MAX && Passes(q, envs, v, n, n, ratify)
    ensures IsNext(envs, v, n, m)
  {
    if forall b: nat :: IsBoundary(envs, v, b) ==> b < n { BeyondBoundaries(q, envs, v, n, ratify); }
    var b: nat :| IsBoundary(envs, v, b) && n <= b;
    m := NextBoundary(envs, v, n, b);
  }

  lemma {:induction false} HighestPassing(q: QSet, envs: Envelopes, v: Value, n: nat, ratify: bool) returns (hi: nat)
    requires 0 < n <= UINT32_MAX && Passes(q, envs, v, n, n, ratify)
    ensures 0 < hi <= UINT32_MAX && Passes(q, envs, v, hi, hi, ratify)
    ensures forall m: nat :: hi < m <= UINT32_MAX ==> !Passes(q, envs, v, m, m, ratify)
    decreases UINT32_MAX - n
  {
    if m: nat :| n < m <= UINT32_MAX && Passes(q, envs, v, m, m, ratify) {
      hi := HighestPassing(q, envs, v, m, ratify);
    } else {
      hi := n;
    }
  }

  // ---------- the interval, among all counters ----------

  /** The counters to commit: down from the one to look for to the lowest that passes with it. */
  ghost predicate IsBest(q: QSet, envs: Envelopes, v: Value, lo: nat, hi: nat, ratify: bool) {
    IsHighCounter(q, envs, v, hi, ratify) && IsLowCounter(q, envs, v, lo, hi, ratify)
  }

  lemma HighCounterIsBoundary(q: QSet, envs: Envelopes, v: Value, hi: nat, ratify: bool)
    requires AllSane(envs) && IsHighCounter(q, envs, v, hi, ratify)
    ensures IsBoundary(envs, v, hi) && Passes(q, envs, v, hi, hi, ratify)
    ensures forall n: nat :: IsBoundary(envs, v, n) && n > hi ==> !Passes(q, envs, v, n, n, ratify)
  {
    if !ratify && OpenEnded(q, envs, v) {
      var top := OpenEndedTop(q, envs, v);
      OpenEndedPasses(q, envs, v, top);
    } else {
      var m := SomeCounter(q, envs, v, hi, ratify);
      HighCounterOnce(q, envs, v, hi, m, ratify);
      forall n: nat | IsBoundary(envs, v, n) && n > hi ensures !Passes(q, envs, v, n, n, ratify) {
        BoundaryIsWord(envs, v, n);
      }
    }
  }

  /** Looking at boundaries only finds what there is among all counters, and all there is. */
  lemma IntervalComplete(q: QSet, envs: Envelopes, v: Value, lo: nat, hi: nat, ratify: bool)
    requires AllSane(envs)
    ensures lo != 0 ==> (IsCommitInterval(q, envs, v, lo, hi, ratify) <==> IsBest(q, envs, v, lo, hi, ratify))
  {
    if IsCommitInterval(q, envs, v, lo, hi, ratify) {
      HighComplete(q, envs, v, hi, ratify);
      LowComplete(q, envs, v, lo, hi, ratify);
    }
    if lo != 0 && IsBest(q, envs, v, lo, hi, ratify) {
      HighCounterIsBoundary(q, envs, v, hi, ratify);
      var b := LowestBoundary(q, envs, v, lo, hi, ratify);
      assert b == lo <= hi;
    }
  }

  /** Whenever any counter passes there are counters to commit. The lower one may be zero, which is taken for none. */
  lemma BestExists(q: QSet, envs: Envelopes, v: Value, n: nat, ratify: bool) returns (lo: nat, hi: nat)
    requires AllSane(envs) && 0 < n <= UINT32_MAX && Passes(q, envs, v, n, n, ratify)
    ensures IsBest(q, envs, v, lo, hi, ratify) && lo <= hi && (lo == 0 <==> Passes(q, envs, v, 0, hi, ratify))
    ensures (ratify || !OpenEnded(q, envs, v)) ==> n <= hi
  {
    hi := SomeCounter(q, envs, v, n, ratify);
    lo := LowestPassing(q, envs, v, hi, hi, ratify);
  }

  lemma {:induction false} LowestPassing(q: QSet, envs: Envelopes, v: Value, n: nat, hi: nat, ratify: bool)
    returns (lo: nat)
    requires Passes(q, envs, v, n, hi, ratify)
    ensures IsLowCounter(q, envs, v, lo, hi, ratify) && lo <= n
    decreases n
  {
    if m: nat :| m < n && Passes(q, envs, v, m, hi, ratify) {
      lo := LowestPassing(q, envs, v, m, hi, ratify);
    } else {
      lo := n;
    }
  }

  lemma BestOnce(q: QSet, envs: Envelopes, v: Value, lo: nat, hi: nat, lo': nat, hi': nat, ratify: bool)
    requires IsBest(q, envs, v, lo, hi, ratify) && IsBest(q, envs, v, lo', hi', ratify)
    ensures lo == lo' && hi == hi'
  {
    HighCounterOnce(q, envs, v, hi, hi', ratify);
  }

  /** Only a commit from counter zero on, which no node of this protocol asks for, is taken for none. */
  lemma ZeroOnlyIfClaimed(q: QSet, envs: Envelopes, v: Value, hi: nat, ratify: bool)
    requires AllSane(envs) && forall m :: m in envs && envs[m].st.Confirm? && envs[m].st.ballot.x == v ==>
                                            envs[m].st.nCommit != 0
    ensures !Passes(q, envs, v, 0, hi, ratify)
  {
    if Passes(q, envs, v, 0, hi, ratify) { var m := Supporter(q, envs, v, 0, hi, ratify); }
  }

  /** The upper end is the highest counter of all that pass, exactly when the votes are not without end. */
  lemma HighestExactly(q: QSet, envs: Envelopes, v: Value, lo: nat, hi: nat, ratify: bool)
    requires AllSane(envs) && IsBest(q, envs, v, lo, hi, ratify)
    ensures (forall n: nat :: hi < n <= UINT32_MAX ==> !Passes(q, envs, v, n, n, ratify)) <==>
            ratify || !OpenEnded(q, envs, v)
  {
    if !ratify && OpenEnded(q, envs, v) {
      var top := OpenEndedTop(q, envs, v);
      forall b: nat | IsBoundary(envs, v, b) ensures b <= UINT32_MAX { BoundaryIsWord(envs, v, b); }
      OpenEndedPasses(q, envs, v, UINT32_MAX);
    }
  }

  // ---------- accepting and confirming a commit ----------

  /** The hint votes to commit v, or has accepted that, with some counter. */
  ghost predicate VotesFor(v: Value, hint: Statement) {
    exists n: nat :: VotesCommit(v, n, n, hint)
  }

  ghost predicate AcceptsSome(v: Value, hint: Statement) {
    exists n: nat :: AcceptsCommit(v, n, n, hint)
  }

  lemma HintValue(hint: Statement, v: Value)
    requires IsSane(hint)
    ensures CommitHint(hint) == Some(v) <==> VotesFor(v, hint)
    ensures !hint.Prepare? && CommitHint(hint) == Some(v) <==> AcceptsSome(v, hint)
  {
    if CommitHint(hint) == Some(v) {
      var n := if hint.Prepare? then hint.nC else if hint.Confirm? then hint.nCommit else hint.commit.n;
      assert VotesCommit(v, n, n, hint);
      assert !hint.Prepare? ==> AcceptsCommit(v, n, n, hint);
    }
  }

  ghost predicate CommitChoice(q: QSet, s: Node, envs: Envelopes, hint: Statement, v: Value, lo: nat, hi: nat) {
    s.phase != ExternalizePhase && VotesFor(v, hint) && lo != 0 && IsBest(q, envs, v, lo, hi, false) &&
    (s.phase == ConfirmPhase ==> s.h.Some? && v == s.h.value.x && hi > s.h.value.n)
  }

  ghost predicate FinalChoice(q: QSet, s: Node, envs: Envelopes, hint: Statement, v: Value, lo: nat, hi: nat) {
    s.phase == ConfirmPhase && s.h.Some? && s.c.Some? && AcceptsSome(v, hint) && v == s.c.value.x && lo != 0 &&
    IsBest(q, envs, v, lo, hi, true)
  }

  /** There is at most one choice, it was taken if there is one, and nothing else was. */
  ghost predicate ChoseCommit(q: QSet, s: Node, envs: Envelopes, hint: Statement, didWork: bool, v: Value, lo: nat,
                              hi: nat)
  {
    forall u, n: nat, m: nat :: CommitChoice(q, s, envs, hint, u, n, m) <==> didWork && u == v && n == lo && m == hi
  }

  ghost predicate ChoseFinal(q: QSet, s: Node, envs: Envelopes, hint: Statement, didWork: bool, v: Value, lo: nat,
                             hi: nat)
  {
    forall u, n: nat, m: nat :: FinalChoice(q, s, envs, hint, u, n, m) <==> didWork && u == v && n == lo && m == hi
  }

  lemma CommitComplete(q: QSet, s: Node, envs: Envelopes, hint: Statement, didWork: bool, v: Value, lo: nat, hi: nat)
    requires s.phase == ConfirmPhase ==> s.h.Some?
    requires didWork ==> AcceptsHint(s, hint, v) && IsCommitInterval(q, envs, v, lo, hi, false) && lo != 0 &&
                         (s.phase == ConfirmPhase ==> hi > s.h.value.n)
    requires forall u, n: nat, m: nat ::
               AcceptsHint(s, hint, u) && IsCommitInterval(q, envs, u, n, m, false) && n != 0 &&
               (s.phase == ConfirmPhase ==> m > s.h.value.n)
               ==> didWork
    ensures AllSane(envs) && IsSane(hint) ==> ChoseCommit(q, s, envs, hint, didWork, v, lo, hi)
  {
    if didWork && AllSane(envs) && IsSane(hint) {
      HintValue(hint, v);
      IntervalComplete(q, envs, v, lo, hi, false);
    }
    forall u, n: nat, m: nat | AllSane(envs) && IsSane(hint) && CommitChoice(q, s, envs, hint, u, n, m)
      ensures didWork && u == v && n == lo && m == hi
    {
      HintValue(hint, u);
      IntervalComplete(q, envs, u, n, m, false);
      BestOnce(q, envs, v, lo, hi, n, m, false);
    }
  }

  lemma FinalComplete(q: QSet, s: Node, envs: Envelopes, hint: Statement, didWork: bool, v: Value, lo: nat, hi: nat)
    requires didWork ==> ConfirmsHint(s, hint, v) && IsCommitInterval(q, envs, v, lo, hi, true) && lo != 0
    requires forall u, n: nat, m: nat ::
        ConfirmsHint(s, hint, u) && IsCommitInterval(q, envs, u, n, m, true) && n != 0 ==> didWork
    ensures AllSane(envs) && IsSane(hint) ==> ChoseFinal(q, s, envs, hint, didWork, v, lo, hi)
  {
    if didWork && AllSane(envs) && IsSane(hint) {
      HintValue(hint, v);
      IntervalComplete(q, envs, v, lo, hi, true);
    }
    forall u, n: nat, m: nat | AllSane(envs) && IsSane(hint) && FinalChoice(q, s, envs, hint, u, n, m)
      ensures didWork && u == v && n == lo && m == hi
    {
      HintValue(hint, u);
      IntervalComplete(q, envs, u, n, m, true);
      BestOnce(q, envs, v, lo, hi, n, m, true);
    }
  }

  // ---------- two limits ----------

  lemma OneNode(n: NodeID, st: Statement, who: set<NodeID>)
    requires who == {n}
    ensures HasQuorum(QSet(1, [n], []), QSetsOf(map[n := Envelope(st, QSet(1, [n], []))]), who)
  {
    var q := QSet(1, [n], []);
    assert q.validators[..0] == [] && CountNodes(q.validators, who) == 1;
    assert who <= who && IsQuorumOf(QSetsOf(map[n := Envelope(st, q)]), who) && Slice(q, who);
  }

  /** Of a hint that is not the last statement of anyone, nothing may be looked at: here (5, 0) can be accepted, and
      there is no candidate. */
  lemma UnheardHint(n: NodeID)
    ensures var envs := map[n := Envelope(Prepare(Ballot(10, 0), None, None, 0, 0), QSet(1, [n], []))];
            var hint := Prepare(Ballot(5, 0), None, None, 0, 0);
            Choice(QSet(1, [n], []), NEW_NODE, envs, hint, Ballot(5, 0)) && forall y :: !IsCandidate(envs, hint, y)
  {
    var st, hint := Prepare(Ballot(10, 0), None, None, 0, 0), Prepare(Ballot(5, 0), None, None, 0, 0);
    var envs := map[n := Envelope(st, QSet(1, [n], []))];
    assert SupportPrepare(envs, Ballot(5, 0)) == {n};
    OneNode(n, st, {n});
    assert HintBallots(hint) == [Ballot(5, 0)] && Suggested(Ballot(5, 0), st) == [];
  }

  /** With a peer that has accepted a commit of counter 1, counter 1 is accepted though all higher ones pass as well. */
  lemma VotesWithoutEnd(n: NodeID, v: Value)
    ensures var q, envs := QSet(1, [n], []), map[n := Envelope(Confirm(Ballot(1, v), 1, 1, 1), QSet(1, [n], []))];
            AllSane(envs) && IsBest(q, envs, v, 1, 1, false) && Passes(q, envs, v, UINT32_MAX, UINT32_MAX, false)
  {
    var q, st := QSet(1, [n], []), Confirm(Ballot(1, v), 1, 1, 1);
    var envs := map[n := Envelope(st, q)];
    assert Confirming(envs, v) == {n} == SupportCommit(envs, v, UINT32_MAX, UINT32_MAX) == SupportCommit(envs, v, 1, 1);
    OneNode(n, st, {n});
    assert envs[n].st == st && EndsAt(v, st, 1) && SomeEnd(envs, v, 1);
    ZeroOnlyIfClaimed(q, envs, v, 1, false);
  }
}
