/** A node of the ballot protocol as src/scp/BallotProtocol.cpp has it: fields that its methods update, and attempts
    that look through what has been heard for a step to take. Whatever an attempt does is a step of the network's
    model. */
module BallotNode {
  import opened Quorum
  import opened Trust
  import opened Ballot
  import opened BallotSafety
  import opened BallotSearch
  import opened BallotComplete

  class BallotProtocol {
    const qset: QSet
    var currentBallot: Option<Ballot>
    var prepared: Option<Ballot>
    var preparedPrime: Option<Ballot>
    var highBallot: Option<Ballot>
    var commit: Option<Ballot>
    var phase: Phase
    var latestEnvelopes: Envelopes

    function Value(): Node
      reads this
    {
      Node(currentBallot, prepared, preparedPrime, highBallot, commit, phase)
    }

    constructor (qset: QSet)
      ensures this.qset == qset && Value() == NEW_NODE && latestEnvelopes == map[]
    {
      this.qset := qset;
      currentBallot, prepared, preparedPrime, highBallot, commit := None, None, None, None, None;
      phase, latestEnvelopes := PreparePhase, map[];
    }

    // ---------- federated voting ----------

    /** The nodes whose statement passes. */
    method Passing(filter: Statement -> bool) returns (nodes: seq<NodeID>)
      ensures forall n :: n in nodes <==> n in latestEnvelopes && filter(latestEnvelopes[n].st)
    {
      nodes := [];
      var left := latestEnvelopes.Keys;
      while left != {}
        invariant left <= latestEnvelopes.Keys
        invariant forall n :: n in nodes <==> n in latestEnvelopes && n !in left && filter(latestEnvelopes[n].st)
        decreases |left|
      {
        var n :| n in left;
        left := left - {n};
        if filter(latestEnvelopes[n].st) {
          nodes := nodes + [n];
        }
      }
    }

    /** The nodes that pass, as a set. */
    ghost function Who(filter: Statement -> bool): set<NodeID>
      reads this
    {
      set n | n in latestEnvelopes && filter(latestEnvelopes[n].st)
    }

    method FederatedAccept(voted: Statement -> bool, accepted: Statement -> bool) returns (ok: bool)
      ensures ok == (Blocked(qset, Who(accepted)) ||
          HasQuorum(qset, QSetsOf(latestEnvelopes), Who(st => accepted(st) || voted(st))))
    {
      var acceptors := Passing(accepted);
      assert Elements(acceptors) == Who(accepted);
      ok := IsVBlocking(qset, acceptors);
      if !ok {
        var both := st => accepted(st) || voted(st);
        var supporters := Passing(both);
        assert Elements(supporters) == Who(both) == Who(st => accepted(st) || voted(st));
        var largest;
        ok, largest := SearchQuorum(qset, QSetsOf(latestEnvelopes), supporters);
      }
    }

    method FederatedRatify(voted: Statement -> bool) returns (ok: bool)
      ensures ok == HasQuorum(qset, QSetsOf(latestEnvelopes), Who(voted))
    {
      var voters := Passing(voted);
      assert Elements(voters) == Who(voted);
      var largest;
      ok, largest := SearchQuorum(qset, QSetsOf(latestEnvelopes), voters);
    }

    method CanAcceptPrepared(ballot: Ballot) returns (ok: bool)
      ensures ok == AcceptsPrepared(qset, latestEnvelopes, ballot)
    {
      ok := FederatedAccept(st => VotesPrepare(ballot, st), st => HasPrepared(ballot, st));
      assert Who(st => HasPrepared(ballot, st)) == HavePrepared(latestEnvelopes, ballot);
      var f, g := st => HasPrepared(ballot, st), st => VotesPrepare(ballot, st);
      assert Who(st => f(st) || g(st)) == SupportPrepare(latestEnvelopes, ballot);
    }

    method CanRatifyPrepared(ballot: Ballot) returns (ok: bool)
      ensures ok == RatifiesPrepared(qset, latestEnvelopes, ballot)
    {
      ok := FederatedRatify(st => HasPrepared(ballot, st));
      assert Who(st => HasPrepared(ballot, st)) == HavePrepared(latestEnvelopes, ballot);
    }

    // ---------- the state ----------

    /** `bumpState` with a counter, and `updateCurrentValue`. */
    method BumpState(value: Value, n: nat) returns (updated: bool)
      modifies this`currentBallot
      ensures updated == CanBump(old(Value()), value, n)
      ensures Value() == if updated then Bumped(old(Value()), value, n) else old(Value())
    {
      updated := false;
      if phase != PreparePhase && phase != ConfirmPhase {
        return;
      }
      var newb := Ballot(n, if highBallot.Some? then highBallot.value.x else value);
      if currentBallot.None? {
        currentBallot := Some(newb);
        updated := true;
      } else {
        if commit.Some? && commit.value.x != newb.x {
          return;
        }
        if Leq(currentBallot.value, newb) && currentBallot.value != newb {
          currentBallot := Some(newb);
          updated := true;
        }
      }
    }

    method SetPrepared(ballot: Ballot) returns (didWork: bool)
      modifies this`prepared, this`preparedPrime
      ensures Value() == WithPrepared(old(Value()), ballot) && didWork == (Value() != old(Value()))
    {
      didWork := false;
      if prepared.Some? {
        if Leq(prepared.value, ballot) && prepared.value != ballot {
          if prepared.value.x != ballot.x {
            preparedPrime := prepared;
          }
          prepared := Some(ballot);
          didWork := true;
        } else if prepared.value != ballot {
          if preparedPrime.None? || (Leq(preparedPrime.value, ballot) && preparedPrime.value != ballot) {
            preparedPrime := Some(ballot);
            didWork := true;
          }
        }
      } else {
        prepared := Some(ballot);
        didWork := true;
      }
    }

    method SetPreparedAccept(ballot: Ballot) returns (didWork: bool)
      modifies this`prepared, this`preparedPrime, this`commit
      ensures Value() == PreparedAccepted(old(Value()), ballot) && didWork == (Value() != old(Value()))
    {
      didWork := SetPrepared(ballot);
      if commit.Some? && highBallot.Some? {
        if (prepared.Some? && LessAndIncompatible(highBallot.value, prepared.value)) ||
           (preparedPrime.Some? && LessAndIncompatible(highBallot.value, preparedPrime.value)) {
          commit := None;
          didWork := true;
        }
      }
    }

    method UpdateCurrentIfNeeded()
      requires highBallot.Some?
      modifies this`currentBallot
      ensures Value() == Caught(old(Value()))
    {
      if currentBallot.None? ||
          (Leq(currentBallot.value, highBallot.value) && currentBallot.value != highBallot.value) {
        currentBallot := highBallot;
      }
    }

    /** A counter of zero stands for no new commit. */
    method SetPreparedConfirmed(newC: Ballot, newH: Ballot) returns (didWork: bool)
      requires highBallot.Some? ==> !Leq(newH, highBallot.value)
      modifies this`highBallot, this`commit, this`currentBallot
      ensures didWork && Value() == PreparedConfirmed(old(Value()), if newC.n != 0 then Some(newC) else None, newH)
    {
      didWork := false;
      if highBallot.None? || (Leq(highBallot.value, newH) && highBallot.value != newH) {
        didWork := true;
        highBallot := Some(newH);
      }
      if newC.n != 0 {
        commit := Some(newC);
        didWork := true;
      }
      if didWork {
        UpdateCurrentIfNeeded();
      }
    }

    method SetAcceptCommit(c: Ballot, h: Ballot) returns (didWork: bool)
      requires c.x == h.x && phase != ExternalizePhase
      requires (phase == ConfirmPhase ==> highBallot.Some? && highBallot.value != h)
      modifies this`commit, this`highBallot, this`phase, this`preparedPrime, this`currentBallot
      ensures didWork && Value() == CommitAccepted(old(Value()), c.x, c.n, h.n)
    {
      didWork := false;
      if highBallot.None? || commit.None? || highBallot.value != h || commit.value != c {
        commit := Some(c);
        highBallot := Some(h);
        didWork := true;
      }
      if phase == PreparePhase {
        phase := ConfirmPhase;
        if currentBallot.Some? && !LessAndCompatible(h, currentBallot.value) {
          currentBallot := Some(h);
        }
        preparedPrime := None;
        didWork := true;
      }
      if didWork {
        UpdateCurrentIfNeeded();
      }
    }

    method SetConfirmCommit(c: Ballot, h: Ballot) returns (didWork: bool)
      requires c.x == h.x
      modifies this`commit, this`highBallot, this`phase, this`currentBallot
      ensures didWork && Value() == CommitConfirmed(old(Value()), c.x, c.n, h.n)
    {
      commit := Some(c);
      highBallot := Some(h);
      UpdateCurrentIfNeeded();
      phase := ExternalizePhase;
      didWork := true;
    }

    // ---------- attempts ----------

    method InsertAll(s: seq<Ballot>, more: seq<Ballot>) returns (r: seq<Ballot>)
      requires Descending(s)
      ensures Descending(r) && forall x :: x in r <==> x in s || x in more
    {
      r := s;
      for i := 0 to |more|
        invariant Descending(r) && forall x :: x in r <==> x in s || x in more[..i]
      {
        r := InsertBallot(r, more[i]);
        assert more[..i + 1] == more[..i] + [more[i]];
      }
      assert more[..|more|] == more;
    }

    /** Candidates up to one vote. */
    method CandidatesUpTo(top: Ballot, sofar: seq<Ballot>) returns (r: seq<Ballot>)
      requires Descending(sofar)
      ensures Descending(r)
      ensures forall y :: y in r <==> y in sofar || SuggestedUpTo(latestEnvelopes, top, y)
    {
      r := sofar;
      var left := latestEnvelopes.Keys;
      while left != {}
        invariant left <= latestEnvelopes.Keys && Descending(r)
        invariant forall y :: y in r <==>
            y in sofar || exists n :: n in latestEnvelopes && n !in left && y in Suggested(top, latestEnvelopes[n].st)
        decreases |left|
      {
        var n :| n in left;
        ghost var before := r;
        r := InsertAll(r, Suggested(top, latestEnvelopes[n].st));
        left := left - {n};
      }
    }

    method GetPrepareCandidates(hint: Statement) returns (candidates: seq<Ballot>)
      ensures Lists(candidates, latestEnvelopes, hint)
      ensures AllSane(latestEnvelopes) && IsSane(hint) ==> forall y ::
                y in candidates <==> exists top :: IsTop(hint, top) && StopsFor(latestEnvelopes, top, y)
    {
      candidates := [];
      var hints := HintBallots(hint);
      for i := 0 to |hints|
        invariant Descending(candidates) && forall y :: y in candidates <==> SuggestedBy(latestEnvelopes, hints[..i], y)
      {
        candidates := CandidatesUpTo(hints[i], candidates);
        forall y ensures SuggestedBy(latestEnvelopes, hints[..i + 1], y) <==>
                         SuggestedBy(latestEnvelopes, hints[..i], y) || SuggestedUpTo(latestEnvelopes, hints[i], y)
        {
          OneMoreHint(latestEnvelopes, hints, i, y);
        }
      }
      assert hints[..|hints|] == hints;
      forall y | AllSane(latestEnvelopes) && IsSane(hint)
        ensures IsCandidate(latestEnvelopes, hint, y) <==>
                exists top :: IsTop(hint, top) && StopsFor(latestEnvelopes, top, y)
      {
        CandidatesAreStops(latestEnvelopes, hint, y);
      }
    }

    /** The first candidate that can be accepted as prepared. */
    method FindAcceptable(candidates: seq<Ballot>) returns (i: nat)
      ensures i <= |candidates|
      ensures i < |candidates| ==>
          MayAcceptPrepared(Value(), candidates[i]) && AcceptsPrepared(qset, latestEnvelopes, candidates[i])
      ensures forall j :: 0 <= j < i ==>
          !(MayAcceptPrepared(Value(), candidates[j]) && AcceptsPrepared(qset, latestEnvelopes, candidates[j]))
    {
      i := 0;
      while i < |candidates|
        invariant i <= |candidates|
        invariant forall j :: 0 <= j < i ==>
            !(MayAcceptPrepared(Value(), candidates[j]) && AcceptsPrepared(qset, latestEnvelopes, candidates[j]))
      {
        if MayAcceptPrepared(Value(), candidates[i]) {
          var accepted := CanAcceptPrepared(candidates[i]);
          if accepted {
            return;
          }
        }
        i := i + 1;
      }
    }

    /** Accepts the highest candidate that can be accepted as prepared. */
    method AttemptPreparedAccept(hint: Statement) returns (didWork: bool, ghost y: Ballot)
      modifies this`prepared, this`preparedPrime, this`commit
      ensures didWork ==> IsCandidate(latestEnvelopes, hint, y)
      ensures didWork ==> MayAcceptPrepared(old(Value()), y) && AcceptsPrepared(qset, latestEnvelopes, y)
      ensures didWork ==> Value() == PreparedAccepted(old(Value()), y)
      ensures !didWork ==> Value() == old(Value())
      ensures forall z ::
                IsCandidate(latestEnvelopes, hint, z) && MayAcceptPrepared(old(Value()), z) &&
                AcceptsPrepared(qset, latestEnvelopes, z)
                ==> didWork && Leq(z, y)
      ensures Hears(latestEnvelopes, hint) && IsWord(hint) ==>
                ChoseBest(qset, old(Value()), latestEnvelopes, hint, didWork, y)
    {
      y := Ballot(0, 0);
      didWork := false;
      if phase != PreparePhase && phase != ConfirmPhase {
        return;
      }
      var candidates := GetPrepareCandidates(hint);
      var i := FindAcceptable(candidates);
      HighestFirst(candidates, i);
      if Hears(latestEnvelopes, hint) && IsWord(hint) {
        AcceptComplete(qset, Value(), latestEnvelopes, hint, i < |candidates|,
          if i < |candidates| then candidates[i] else y);
      }
      if i < |candidates| {
        y := candidates[i];
        assert y in candidates;
        AcceptChanges(Value(), y);
        didWork := SetPreparedAccept(candidates[i]);
      }
    }

    /** How far down candidates from place i on can be confirmed as prepared: the lowest, with counter zero for none. */
    method FindLow(candidates: seq<Ballot>, i: nat, b: Ballot) returns (newC: Ballot, ghost k: nat)
      requires i < |candidates|
      ensures Stretch(qset, latestEnvelopes, candidates, i, k, b)
      ensures newC == if k == i then Ballot(0, 0) else candidates[k - 1]
    {
      newC := Ballot(0, 0);
      var cur := i;
      while cur < |candidates|
        invariant i <= cur <= |candidates| && newC == if cur == i then Ballot(0, 0) else candidates[cur - 1]
        invariant forall j :: i <= j < cur ==>
            Leq(b, candidates[j]) && RatifiesPrepared(qset, latestEnvelopes, candidates[j])
      {
        var ballot := candidates[cur];
        if Leq(ballot, b) && ballot != b {
          break;
        }
        var ratified := CanRatifyPrepared(ballot);
        if !ratified {
          break;
        }
        newC := ballot;
        cur := cur + 1;
      }
      k := cur;
    }

    /** The highest candidate that can be confirmed as prepared and raises h. */
    method FindHigh(hint: Statement, candidates: seq<Ballot>) returns (cur: nat)
      requires Lists(candidates, latestEnvelopes, hint)
      ensures cur <= |candidates|
      ensures cur < |candidates| ==> IsHigh(qset, Value(), latestEnvelopes, hint, candidates[cur])
      ensures cur == |candidates| ==> forall y :: !Raises(qset, Value(), latestEnvelopes, hint, y)
    {
      cur := 0;
      while cur < |candidates|
        invariant cur <= |candidates|
        invariant forall j :: 0 <= j < cur ==> !RatifiesPrepared(qset, latestEnvelopes, candidates[j])
      {
        var ballot := candidates[cur];
        if highBallot.Some? && Leq(ballot, highBallot.value) {
          NothingRaises(qset, Value(), latestEnvelopes, hint, candidates, cur);
          cur := |candidates|;
          return;
        }
        var ratified := CanRatifyPrepared(ballot);
        if ratified {
          assert ballot in candidates;
          FirstIsHigh(qset, Value(), latestEnvelopes, hint, candidates, cur);
          return;
        }
        cur := cur + 1;
      }
      NothingRaises(qset, Value(), latestEnvelopes, hint, candidates, cur);
    }

    /** What was found is the highest of all ballots. */
    lemma HighFound(hint: Statement, candidates: seq<Ballot>, cur: nat)
      requires cur < |candidates| ==> IsHigh(qset, Value(), latestEnvelopes, hint, candidates[cur])
      requires cur >= |candidates| ==> forall y :: !Raises(qset, Value(), latestEnvelopes, hint, y)
      ensures Hears(latestEnvelopes, hint) && IsWord(hint) ==>
                ChoseHighest(qset, Value(), latestEnvelopes, hint, cur < |candidates|,
                             if cur < |candidates| then candidates[cur] else Ballot(0, 0))
    {
      if Hears(latestEnvelopes, hint) && IsWord(hint) {
        ConfirmComplete(qset, Value(), latestEnvelopes, hint, cur < |candidates|,
                        if cur < |candidates| then candidates[cur] else Ballot(0, 0));
      }
    }

    /** The commit to vote for with the candidate at place cur; a counter of zero for none. */
    method FindCommit(hint: Statement, candidates: seq<Ballot>, cur: nat) returns (c: Ballot)
      requires Lists(candidates, latestEnvelopes, hint) && cur < |candidates|
      requires IsHigh(qset, Value(), latestEnvelopes, hint, candidates[cur])
      ensures IsCommitFor(qset, Value(), latestEnvelopes, hint, candidates[cur], if c.n != 0 then Some(c) else None)
    {
      var h := candidates[cur];
      c := Ballot(0, 0);
      var b := if currentBallot.Some? then currentBallot.value else Ballot(0, 0);
      if commit.None? && (prepared.None? || !LessAndIncompatible(h, prepared.value)) &&
         (preparedPrime.None? || !LessAndIncompatible(h, preparedPrime.value)) {
        ghost var k;
        c, k := FindLow(candidates, cur, b);
        StretchIsCommit(qset, Value(), latestEnvelopes, hint, candidates, cur, k);
      }
    }

    /** Confirms the highest candidate that can be confirmed and raises h, if there is one. The commit then voted for is
        the lowest candidate that is confirmed without a gap below it. */
    method AttemptPreparedConfirmed(hint: Statement)
      returns (didWork: bool, ghost newC: Option<Ballot>, ghost newH: Ballot)
      modifies this`highBallot, this`commit, this`currentBallot
      ensures didWork <==> phase == PreparePhase && prepared.Some? &&
                           exists y :: IsHigh(qset, old(Value()), latestEnvelopes, hint, y)
      ensures didWork ==> IsHigh(qset, old(Value()), latestEnvelopes, hint, newH)
      ensures didWork ==> IsCommitFor(qset, old(Value()), latestEnvelopes, hint, newH, newC)
      ensures Value() == if didWork then PreparedConfirmed(old(Value()), newC, newH) else old(Value())
      ensures didWork ==> MayConfirmPrepared(old(Value()), newC, newH)
      ensures Consistent(old(Value())) ==>
          (Consistent(Value()) <==> OneValueAhead(qset, old(Value()), latestEnvelopes, hint))
      ensures Hears(latestEnvelopes, hint) && IsWord(hint) && phase == PreparePhase && prepared.Some? ==>
                ChoseHighest(qset, old(Value()), latestEnvelopes, hint, didWork, newH)
    {
      didWork, newC, newH := false, None, Ballot(0, 0);
      if phase != PreparePhase || prepared.None? {
        return;
      }
      var candidates := GetPrepareCandidates(hint);
      var cur := FindHigh(hint, candidates);
      HighFound(hint, candidates, cur);
      if cur < |candidates| {
        var c := FindCommit(hint, candidates, cur);
        newH, newC := candidates[cur], if c.n != 0 then Some(c) else None;
        ghost var s := Value();
        didWork := SetPreparedConfirmed(c, candidates[cur]);
        assert IsHigh(qset, s, latestEnvelopes, hint, newH);
        assert s == old(Value());
        FoundMayConfirm(qset, s, latestEnvelopes, hint, newC, newH);
        if Consistent(s) { FoundConsistent(qset, s, latestEnvelopes, hint, newC, newH); }
      } else {
        assert Value() == old(Value());
        forall y
          ensures !IsHigh(qset, old(Value()), latestEnvelopes, hint, y)
        {
          assert !IsHigh(qset, Value(), latestEnvelopes, hint, y);
        }
      }
    }

    method InsertAllCounters(s: seq<nat>, more: seq<nat>) returns (r: seq<nat>)
      requires DescendingCounters(s)
      ensures DescendingCounters(r) && forall x :: x in r <==> x in s || x in more
    {
      r := s;
      for i := 0 to |more|
        invariant DescendingCounters(r) && forall x :: x in r <==> x in s || x in more[..i]
      {
        r := InsertCounter(r, more[i]);
        assert more[..i + 1] == more[..i] + [more[i]];
      }
      assert more[..|more|] == more;
    }

    method GetCommitBoundaries(v: Value) returns (res: seq<nat>)
      ensures DescendingCounters(res) && forall n :: n in res <==> IsBoundary(latestEnvelopes, v, n)
    {
      res := [];
      var left := latestEnvelopes.Keys;
      while left != {}
        invariant left <= latestEnvelopes.Keys && DescendingCounters(res)
        invariant forall n :: n in res <==>
            exists m :: m in latestEnvelopes && m !in left && n in BoundariesOf(v, latestEnvelopes[m].st)
        decreases |left|
      {
        var m :| m in left;
        res := InsertAllCounters(res, BoundariesOf(v, latestEnvelopes[m].st));
        left := left - {m};
      }
    }

    method TestCommit(v: Value, lo: nat, hi: nat, ratify: bool) returns (ok: bool)
      ensures ok == Passes(qset, latestEnvelopes, v, lo, hi, ratify)
    {
      assert Who(st => AcceptsCommit(v, lo, hi, st)) == HaveAccepted(latestEnvelopes, v, lo, hi);
      if ratify {
        ok := FederatedRatify(st => AcceptsCommit(v, lo, hi, st));
      } else {
        ok := FederatedAccept(st => VotesCommit(v, lo, hi, st), st => AcceptsCommit(v, lo, hi, st));
        var f, g := st => AcceptsCommit(v, lo, hi, st), st => VotesCommit(v, lo, hi, st);
        assert Who(st => f(st) || g(st)) == SupportCommit(latestEnvelopes, v, lo, hi);
      }
    }

    /** `findExtendedInterval`: from the highest counter that passes by itself down to the lowest that passes with it. A
        lower end of zero is taken for none. */
    method FindExtendedInterval(v: Value, boundaries: seq<nat>, ratify: bool) returns (lo: nat, hi: nat)
      requires DescendingCounters(boundaries)
      ensures (exists n :: n in boundaries && n != 0 && Passes(qset, latestEnvelopes, v, n, n, ratify)) ==>
                IsInterval(qset, latestEnvelopes, v, boundaries, lo, hi, ratify)
      ensures (forall n :: n in boundaries && n != 0 ==> !Passes(qset, latestEnvelopes, v, n, n, ratify)) ==> lo == 0
    {
      lo, hi := 0, 0;
      var i := 0;
      while i < |boundaries|
        invariant i <= |boundaries|
        invariant hi == 0 ==> lo == 0 && forall j :: 0 <= j < i && boundaries[j] != 0 ==>
                    !Passes(qset, latestEnvelopes, v, boundaries[j], boundaries[j], ratify)
        invariant hi != 0 ==> SoFar(qset, latestEnvelopes, v, boundaries, i, lo, hi, ratify)
      {
        var b := boundaries[i];
        var ok := TestCommit(v, b, if lo == 0 then b else hi, ratify);
        if lo == 0 {
          if ok {
            lo, hi := b, b;
          }
        } else if !ok {
          StopsHere(qset, latestEnvelopes, v, boundaries, i, lo, hi, ratify);
          return;
        } else {
          lo := b;
        }
        i := i + 1;
      }
      if hi != 0 { Finished(qset, latestEnvelopes, v, boundaries, lo, hi, ratify); }
    }

    /** Accepts the commit of the interval that the statements heard support, if there is one and it raises h. */
    method AttemptAcceptCommit(hint: Statement) returns (didWork: bool, ghost v: Value, ghost lo: nat, ghost hi: nat)
      requires phase == ConfirmPhase ==> highBallot.Some?
      modifies this`commit, this`highBallot, this`phase, this`preparedPrime, this`currentBallot
      ensures didWork ==> AcceptsHint(old(Value()), hint, v)
      ensures didWork ==> IsCommitInterval(qset, latestEnvelopes, v, lo, hi, false)
      ensures Value() == if didWork then CommitAccepted(old(Value()), v, lo, hi) else old(Value())
      ensures didWork ==> MayAcceptCommit(old(Value()), v, lo, hi)
      ensures forall u, n: nat, m: nat ::
                AcceptsHint(old(Value()), hint, u) && IsCommitInterval(qset, latestEnvelopes, u, n, m, false) &&
                n != 0 &&
                (old(phase) == ConfirmPhase ==> m > old(highBallot).value.n)
                ==> didWork
      ensures forall u, n: nat ::
                AcceptsHint(old(Value()), hint, u) && IsBoundary(latestEnvelopes, u, n) && n != 0 &&
                !IsBoundary(latestEnvelopes, u, 0) &&
                Passes(qset, latestEnvelopes, u, n, n, false) &&
                (old(phase) == ConfirmPhase ==> n > old(highBallot).value.n)
                ==> didWork
      ensures AllSane(latestEnvelopes) && IsSane(hint) ==>
                ChoseCommit(qset, old(Value()), latestEnvelopes, hint, didWork, v, lo, hi)
    {
      didWork, v, lo, hi := false, 0, 0, 0;
      var value := CommitHint(hint);
      if phase == ExternalizePhase || value.None? || (phase == ConfirmPhase && value.value != highBallot.value.x) {
        CommitComplete(qset, Value(), latestEnvelopes, hint, false, 0, 0, 0);
        return;
      }
      var first, second := FindInterval(value.value, false);
      if first != 0 && (phase != ConfirmPhase || second > highBallot.value.n) {
        v, lo, hi := value.value, first, second;
        CommitComplete(qset, Value(), latestEnvelopes, hint, true, v, lo, hi);
        didWork := SetAcceptCommit(Ballot(first, value.value), Ballot(second, value.value));
      } else {
        CommitComplete(qset, Value(), latestEnvelopes, hint, false, 0, 0, 0);
      }
    }

    /** The interval for a value; a lower end of zero for none. */
    method FindInterval(v: Value, ratify: bool) returns (lo: nat, hi: nat)
      ensures lo != 0 ==> IsCommitInterval(qset, latestEnvelopes, v, lo, hi, ratify)
      ensures forall n: nat, m: nat :: IsCommitInterval(qset, latestEnvelopes, v, n, m, ratify) ==> n == lo && m == hi
      ensures forall n: nat ::
                IsBoundary(latestEnvelopes, v, n) && n != 0 && Passes(qset, latestEnvelopes, v, n, n, ratify)
                ==> IsCommitInterval(qset, latestEnvelopes, v, lo, hi, ratify) && n <= hi
    {
      var boundaries := GetCommitBoundaries(v);
      lo, hi := FindExtendedInterval(v, boundaries, ratify);
      OfBoundaries(qset, latestEnvelopes, v, boundaries, lo, hi, ratify);
    }

    /** Externalizes the interval that a quorum has accepted, if there is one. */
    method AttemptConfirmCommit(hint: Statement) returns (didWork: bool, ghost v: Value, ghost lo: nat, ghost hi: nat)
      modifies this`commit, this`highBallot, this`phase, this`currentBallot
      ensures didWork ==> ConfirmsHint(old(Value()), hint, v)
      ensures didWork ==> IsCommitInterval(qset, latestEnvelopes, v, lo, hi, true)
      ensures Value() == if didWork then CommitConfirmed(old(Value()), v, lo, hi) else old(Value())
      ensures didWork ==> MayConfirmCommit(old(Value()), v, lo, hi)
      ensures forall u, n: nat, m: nat ::
                ConfirmsHint(old(Value()), hint, u) && IsCommitInterval(qset, latestEnvelopes, u, n, m, true) &&
                n != 0
                ==> didWork
      ensures forall u, n: nat ::
                ConfirmsHint(old(Value()), hint, u) && IsBoundary(latestEnvelopes, u, n) && n != 0 &&
                !IsBoundary(latestEnvelopes, u, 0) &&
                Passes(qset, latestEnvelopes, u, n, n, true)
                ==> didWork
      ensures AllSane(latestEnvelopes) && IsSane(hint) ==>
                ChoseFinal(qset, old(Value()), latestEnvelopes, hint, didWork, v, lo, hi)
    {
      didWork, v, lo, hi := false, 0, 0, 0;
      var value := CommitHint(hint);
      if phase != ConfirmPhase || highBallot.None? || commit.None? || hint.Prepare? || value.value != commit.value.x {
        FinalComplete(qset, Value(), latestEnvelopes, hint, false, 0, 0, 0);
        return;
      }
      var first, second := FindInterval(value.value, true);
      FinalComplete(qset, Value(), latestEnvelopes, hint, first != 0, if first != 0 then value.value else 0,
                    if first != 0 then first else 0, if first != 0 then second else 0);
      if first != 0 {
        v, lo, hi := value.value, first, second;
        didWork := SetConfirmCommit(Ballot(first, value.value), Ballot(second, value.value));
      }
    }
  }

  // ---------- the assertion that can fail ----------

  lemma OnlySlice(n: NodeID, u: set<NodeID>)
    requires n in u
    ensures Slice(Singleton(n), u) && Blocked(Singleton(n), u)
  {
    var q := Singleton(n);
    assert q.validators[..0] == [];
    assert CountNodes(q.validators, u) == 1;
  }

  /** A node that trusts one other takes its word. */
  lemma OneIsEnough(n: NodeID, st: Statement, y: Ballot)
    requires HasPrepared(y, st)
    ensures var envs := map[n := Envelope(st, Singleton(n))];
            AcceptsPrepared(Singleton(n), envs, y) && RatifiesPrepared(Singleton(n), envs, y)
  {
    var envs := map[n := Envelope(st, Singleton(n))];
    var u := {n};
    OnlySlice(n, u);
    assert HavePrepared(envs, y) == u;
    assert u <= HavePrepared(envs, y) && IsQuorumOf(QSetsOf(envs), u) && Slice(Singleton(n), u);
  }

  /** A peer that has accepted both (5, 1) and (4, 2) as prepared. */
  const TWO_PREPARED := Prepare(Ballot(5, 1), Some(Ballot(5, 1)), Some(Ballot(4, 2)), 0, 0)

  lemma TwoCandidates(n: NodeID, y: Ballot)
    ensures IsCandidate(map[n := Envelope(TWO_PREPARED, Singleton(n))], TWO_PREPARED, y) <==>
        y == Ballot(5, 1) || y == Ballot(4, 2)
  {
    var envs := map[n := Envelope(TWO_PREPARED, Singleton(n))];
    var hints := HintBallots(TWO_PREPARED);
    assert hints[0] == Ballot(5, 1) && hints[2] == Ballot(4, 2);
    assert Ballot(5, 1) in hints && n in envs && Suggested(Ballot(5, 1), envs[n].st)[0] == Ballot(5, 1);
    assert Ballot(4, 2) in hints && n in envs && Suggested(Ballot(4, 2), envs[n].st)[0] == Ballot(4, 2);
  }

  lemma TwoFound(n: NodeID, s: Node)
    requires s == NEW_NODE.(p := Some(Ballot(5, 1)), pp := Some(Ballot(4, 2)))
    ensures var envs := map[n := Envelope(TWO_PREPARED, Singleton(n))];
            IsHigh(Singleton(n), s, envs, TWO_PREPARED, Ballot(5, 1)) &&
            IsLow(Singleton(n), s, envs, TWO_PREPARED, Ballot(5, 1), Ballot(4, 2)) &&
            !OneValueAhead(Singleton(n), s, envs, TWO_PREPARED)
  {
    var envs := map[n := Envelope(TWO_PREPARED, Singleton(n))];
    OneIsEnough(n, TWO_PREPARED, Ballot(5, 1));
    OneIsEnough(n, TWO_PREPARED, Ballot(4, 2));
    forall y
      ensures IsCandidate(envs, TWO_PREPARED, y) <==> y == Ballot(5, 1) || y == Ballot(4, 2)
    {
      TwoCandidates(n, y);
    }
  }

  /** A new node that trusts such a peer accepts both as prepared. */
  method HearTwoPrepared(n: NodeID) returns (node: BallotProtocol)
    ensures fresh(node) && node.qset == Singleton(n)
    ensures node.latestEnvelopes == map[n := Envelope(TWO_PREPARED, Singleton(n))]
    ensures node.Value() == NEW_NODE.(p := Some(Ballot(5, 1)), pp := Some(Ballot(4, 2))) && Consistent(node.Value())
  {
    node := new BallotProtocol(Singleton(n));
    node.latestEnvelopes := map[n := Envelope(TWO_PREPARED, Singleton(n))];
    OneIsEnough(n, TWO_PREPARED, Ballot(5, 1));
    OneIsEnough(n, TWO_PREPARED, Ballot(4, 2));
    TwoCandidates(n, Ballot(5, 1));
    TwoCandidates(n, Ballot(4, 2));
    var didWork;
    ghost var y;
    didWork, y := node.AttemptPreparedAccept(TWO_PREPARED);
    TwoCandidates(n, y);
    assert y == Ballot(5, 1) && node.Value() == NEW_NODE.(p := Some(y));
    didWork, y := node.AttemptPreparedAccept(TWO_PREPARED);
    TwoCandidates(n, y);
    assert y == Ballot(4, 2);
  }

  /** It then confirms (5, 1) and votes to commit from (4, 2) on, which fails its assertions. */
  method FailAssertion(n: NodeID) returns (node: BallotProtocol)
    ensures node.Value() == PreparedConfirmed(NEW_NODE.(p := Some(Ballot(5, 1)), pp := Some(Ballot(4, 2))),
        Some(Ballot(4, 2)), Ballot(5, 1))
    ensures !Consistent(node.Value())
  {
    node := HearTwoPrepared(n);
    ghost var before := node.Value();
    TwoFound(n, before);
    ghost var newC, newH;
    var didWork;
    didWork, newC, newH := node.AttemptPreparedConfirmed(TWO_PREPARED);
    HighOnce(Singleton(n), before, node.latestEnvelopes, TWO_PREPARED, newH, Ballot(5, 1));
    LowIsCommit(Singleton(n), before, node.latestEnvelopes, TWO_PREPARED, Ballot(5, 1), newC, Ballot(4, 2));
  }
}
