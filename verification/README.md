# A verified model of stellar-core's consensus and support layer

This project models, in Dafny 4.11, the ballot protocol of the Stellar Consensus Protocol with its quorum tests, and the
algorithms of the support layer: argument permutation in `getopt_long`, the JSON reader and its two writers, the base-N
codec, 128-bit arithmetic, CRC-16, the section tracker of the test runner, the LRU cache, the incremental HTTP request
parser and fast decimal formatting. It proves what they are for. `dafny verify dfyconfig.toml` checks all of it.

Code that works by changing things is modelled by classes, arrays and loops; each such method is proved against a
specification on values, and what the system promises is proved about that specification for all inputs or all runs.

* **`Ballot`, `BallotSafety`, `BallotAsserted`, `BallotExternalize`, `BallotSplit`, `BallotRuns`, `BallotSearch`,
  `BallotComplete`, `BallotNode`, `BallotCalls`, `BallotCluster`, `BallotDrive`** (`src/scp/BallotProtocol.cpp`). The
  state of a node, its transitions, the class whose attempts look for one, and a network of such nodes in which others
  misbehave arbitrarily and messages are old, lost or different for every receiver. Over all runs, nodes that externalize a value externalize the same, whether or not the assertions of
  `checkInvariants` are compiled in. With them, nodes that merely accept a commit are bound to one value too; the argument
  is that a ballot is backed for commit or for abort by a quorum of votes, never by both, and that whatever a node accepts
  as prepared has everything incompatible below it backed for abort. Without them that is false, and a run of three
  well-behaved nodes and one other shows it. `BallotCluster` ties objects of the class to runs: any sequence of calls on
  them is one, and `BallotCalls` says which. `BallotComplete` shows that the few ballots and counters the attempts look at
  are enough: what they find is the best of all ballots and all counters. `BallotDrive` takes the objects of a network, by
  such calls, to the end.
* **`Quorum`, `QuorumSets`, `QuorumDuality`, `QuorumClosest`, `ClosestSearch`, `ClosestExcluded`, `Trust`, `Federated`**
  (`src/scp/LocalNode.cpp`, `src/scp/Slot.cpp`). Nested thresholds: being v-blocking is missing every slice, exactly when
  all thresholds are in range; the search for a quorum finds the largest; normalising keeps the meaning; the closest
  v-blocking set is one of the least size, by weak duality. Federated voting: no run leads well-behaved nodes to accept
  contradictory statements.
* **`BlockExchange`, `Getopt`, `GetoptSpelling`** (`lib/util/getopt_long.c`). `permute_args` swaps two adjacent blocks in place by
  following gcd-many cycles; the proof goes through Bezout's identity and residue classes to "every slot is visited
  exactly once". `getopt_long` is a class whose fields are the globals `optind`, `place`, `nonopt_start`, `nonopt_end`.
  A whole run, up to the final -1, is proved equal to a reading that moves nothing. `GetoptSpelling` says how options,
  arguments and words are written and what they mean, mistakes included; every argument list is such a command line, and a
  run reports what it means.
* **`JsonText`, `JsonSpelling`, `JsonGrammar`, `JsonDecode`, `JsonReader`, `JsonLayout`, `JsonSqueeze`, `JsonWriter`,
  `JsonDropped`, `JsonRoundTrip`** (`lib/json/jsoncpp.cpp`). `JsonGrammar` says as functions what documents the reader accepts and what it returns.
  `JsonSpelling` says by character codes what the characters of a string literal spell (section 7 of RFC 8259).
  `JsonReader.Reader` is the reader with its cursor, node stack, error list and recovery, and is proved to agree with the
  grammar. `JsonLayout` proves that every document that lays out the tokens of a value, with any white space between
  them, is read as that value. Both writers are proved to produce such documents, so the round trip holds for both and
  their outputs agree once white space outside literals is removed. `JsonDropped` does the same for values written
  without their nulls, and says exactly which of them come back.
* **`BitStrings`, `Basen`, `BasenTables`** (`lib/util/basen.h`). One encoder and one decoder, over a record of traits,
  against sections 4, 6 and 8 of RFC 4648 read as statements about one long bit string, and against the alphabets of
  its tables by character code.
* **`Uint128`** (`lib/util/uint128_t.cpp`), **`Gf2`, `Crc16`** (`lib/util/crc16.cpp`), **`Format`** (`lib/util/format.h`),
  all against plain arithmetic: numbers, polynomials over two elements, canonical numerals (`Numerals`).
* **`Sections`** (`lib/catch.hpp`). Cycles of a test case over a tree of trackers.
* **`LruCache`** (`lib/util/lrucache.hpp`) and **`Http`, `HttpLanguage`, `HttpParser`**
  (`lib/http/request_parser.cpp`). `HttpLanguage` says which texts are requests, and of what, without the states of the
  parser; the parser's answer to every text is exactly what that calls for.

`Arithmetic` holds number facts; `Sealing` a device to keep large facts folded in a proof.

Integers are unbounded in Dafny. Where width matters it is written out: limbs and carries in `Uint128`, the digit loop of
the JSON reader (never beyond its 64-bit bound), signed characters in `BitStrings`, negation modulo 2^64 in `Format`.
Text is a sequence of bytes, written as characters.

Points where the code differs from what its documentation or a reader may expect; the model follows the code:

* `isQuorum` does not ask whether the local node is a member of the quorum it finds, so the assumption on quorums
  (`Trust.Intertwined`) is about quorums in that sense.
* `attemptPreparedConfirmed` looks for a commit to vote for without comparing its value with the ballot confirmed
  (`src/scp/BallotProtocol.cpp:912-943`). `BallotNode.FailAssertion` is a new node on which three calls lead to a state
  that fails `checkInvariants`, and the contract of `AttemptPreparedConfirmed` says exactly on which envelopes and hints
  that happens. The assertions are `dbgAssert`, which does nothing under NDEBUG (`src/util/GlobalChecks.h:13-15`). Runs
  (`BallotSafety.IsRun`) therefore do not depend on them; `IsCheckedRun` asks for a test before each confirmation of a
  ballot, which `BallotAsserted.CheckedExactly` shows to be the same as the assertions holding throughout.
* After such a state a node may vote to commit a ballot that it has voted to abort. `BallotSplit.SplitRun` shows that
  well-behaved nodes can then accept commits of different values, and `BallotExternalize.ExternalizedAgree` that they
  cannot externalize them.
* A confirm statement is counted as a vote to commit every counter from its first on (`src/scp/BallotProtocol.cpp:1178-1186`),
  but only counters that some statement names are looked at. When confirm statements alone are a quorum the upper end found
  is therefore not the highest counter that would pass: `BallotComplete.VotesWithoutEnd` is such a case and
  `BallotComplete.HighestExactly` the exact condition. A lower end of zero is taken for no interval.
* The attempts to prepare are complete for a hint that is still the last statement of its sender
  (`BallotComplete.AcceptComplete`); `processEnvelope` passes such a one. When the hint is the node's own statement and an
  earlier attempt on it has replaced that statement, a ballot may be passed over (`BallotComplete.UnheardHint`).
* `findClosestVBlocking` with an excluded node takes an empty result for an inner set as "already blocked". For the
  node's own set, which names it, as `dumpQuorumInfo` calls it (`src/scp/BallotProtocol.cpp:2015-2021`), that can be
  wrong: `ClosestExcluded.MissSlice` is such a call and `ClosestExcluded.BlocksWithoutExactly` the exact condition.
* The JSON reader does not look at what follows the first value; a lone `-` is the number 0; a comma before the closing
  brace is accepted after a member whose name is empty; after a comment behind a member any token passes for a comma.
* `FastWriter` with `dropNullPlaceholders` writes texts that the reader refuses, even when it allows dropped nulls, or
  reads as another value: an array of one null becomes an empty one (`JsonRoundTrip.LostNulls`).
* After an escape for a high surrogate the JSON reader takes any `\u` escape for its partner and looks at the last ten
  bits only.
* The base-N decoder counts every `=`, wherever it stands, as one digit of padding.
* The HTTP parser has no upper bound on version digits; `Http.VersionsOnlyGrow` shows that a version that fits is reached
  without an intermediate value that does not.

## Model

| member | source | states |
|---|---|---|
| `Quorum.IsQuorumSlice` | src/scp/LocalNode.cpp:228-258 | true exactly when the nodes contain a slice; the unsigned counter included |
| `Quorum.IsVBlocking` | src/scp/LocalNode.cpp:271-310 | true exactly when the nodes are v-blocking; for thresholds beyond the size this includes where the 32-bit counter wraps around |
| `Quorum.Duality` | src/scp/LocalNode.cpp:228-310 | with thresholds in range, a set is v-blocking exactly when what is outside of it contains no slice |
| `QuorumDuality.DualExactly` | src/scp/LocalNode.cpp:228-310 | for sets that name no node twice, blocking is the complement of containing a slice exactly when all thresholds, also of sets within, are in range |
| `Quorum.SlicesIntersect` | src/scp/LocalNode.cpp:57-64 | with the extra check of `isQuorumSetSane` any two slices share a node |
| `Quorum.SearchQuorum` | src/scp/LocalNode.cpp:339-370 | the loop ends with the largest quorum among the nodes that pass, so the answer is whether there is any |
| `QuorumSets.SaneInternal` | src/scp/LocalNode.cpp:49-89 | true exactly when all thresholds are in range and no node is named twice or known before |
| `QuorumSets.IsQuorumSetSane` | src/scp/LocalNode.cpp:129-135 | true exactly for sane sets |
| `QuorumSets.Normalize` | src/scp/LocalNode.cpp:91-127 | the same slices and blocking sets, the same nodes and range verdict, nothing left to simplify |
| `QuorumClosest.LowerBound` | src/scp/LocalNode.cpp:390-469 | at every price per entry, a bound that every blocking set has to pay |
| `QuorumClosest.ClosestIsLeast` | src/scp/LocalNode.cpp:390-469 | if no set within needs the nodes that may not be taken, the result closes the gap with nodes that may, and none does with fewer of the nodes named |
| `ClosestSearch.FindClosest` | src/scp/LocalNode.cpp:390-469 | the scan of validators, the ordered collection of inner results and the greedy choice compute that result, with or without an excluded node; for thresholds out of range too, where the counter wraps around |
| `ClosestExcluded.ClosestVBlocking` | src/scp/LocalNode.cpp:390-469 | for a sane set and no excluded node: a v-blocking completion of the least size |
| `ClosestExcluded.LeastWithout` | src/scp/LocalNode.cpp:403-423 | an excluded node that no set within depends on alone: the result avoids it, blocks, and is least among the sets without it that block while it is up |
| `ClosestExcluded.BlocksWithoutExactly` | src/scp/LocalNode.cpp:436-444 | the result without a node blocks for all nodes given exactly when every set within that names the node itself has a threshold of at least two |
| `ClosestExcluded.MissSlice` | src/scp/BallotProtocol.cpp:2015-2021 | a call that returns nothing, as if the set were blocked, while the nodes given contain a slice and one of them would block |
| `Trust.CommonSetIntertwined` | src/scp/LocalNode.cpp:49-89 | nodes that share a set that passes the extra check, and all behave, satisfy the assumptions of the agreement theorems |
| `Trust.FlatIntertwined` | src/scp/Slot.cpp:369-408 | nodes that share a flat set satisfy them exactly when two slices overlap in more nodes than misbehave and those are too few to block |
| `Trust.ThirdFaulty` | src/scp/LocalNode.cpp:57-64 | for 3f + 1 nodes that ask for 2f + 1, exactly when at most f misbehave |
| `Federated.FederatedAccept` | src/scp/Slot.cpp:369-398 | those that accepted are v-blocking, or a quorum voted or accepted |
| `Federated.FederatedRatify` | src/scp/Slot.cpp:400-408 | a quorum accepted |
| `Federated.AcceptIsBacked` | src/scp/Slot.cpp:369-398 | what is accepted has a quorum of votes behind it, whatever misbehaving nodes claim |
| `Federated.Agreement` | src/scp/Slot.cpp:369-408 | over all runs no two well-behaved nodes accept or confirm contradictory statements |
| `Ballot.BumpConsistent` | src/scp/BallotProtocol.cpp:331-426 | bumping keeps the assertions |
| `Ballot.AcceptConsistent` | src/scp/BallotProtocol.cpp:835-868 | accepting a ballot as prepared keeps the assertions, in the second phase exactly when the ballot is not above h and incompatible with it |
| `Ballot.ConfirmConsistent` | src/scp/BallotProtocol.cpp:982-1015 | setting h and c keeps them exactly when c has the value of h and the ballot set along has a counter |
| `BallotSearch.FoundConsistent` | src/scp/BallotProtocol.cpp:870-946 | confirming what the search finds keeps the assertions exactly when, before the call, the commit voted for or else the lowest of the candidates confirmed without a gap from the highest down to the ballot has the value of the highest |
| `BallotNode.HearTwoPrepared` | src/scp/BallotProtocol.cpp:748-832 | a new node accepts two incompatible ballots as prepared from one peer it trusts |
| `BallotNode.FailAssertion` | src/scp/BallotProtocol.cpp:870-946 | on the same envelope the next attempt confirms the higher, votes to commit the lower, and fails the assertions |
| `Ballot.CommitConsistent` | src/scp/BallotProtocol.cpp:1233-1274 | accepting a commit keeps them exactly when some ballot has been accepted as prepared |
| `Ballot.ExternalizeConsistent` | src/scp/BallotProtocol.cpp:1436-1459 | confirming a commit keeps them |
| `BallotSafety.StepRegular` | src/scp/BallotProtocol.cpp:748-1459 | what the code relies on without asserting it, p' only beside p and after a commit a p and no p', is kept by every step |
| `BallotSafety.StepConsistent` | src/scp/BallotProtocol.cpp:601-633 | the assertions survive a step exactly when a test before it is passed, which only the confirmation of a ballot as prepared can fail |
| `BallotAsserted.CheckedExactly` | src/scp/BallotProtocol.cpp:601-633 | over every run, the assertions hold in all states exactly when all steps pass that test |
| `Ballot.NewerIsOrder` | src/scp/BallotProtocol.cpp:53-133 | `isNewerStatement` is a strict order |
| `BallotSafety.StepIsNewer` | src/scp/BallotProtocol.cpp:548-599 | a step makes a node's statement newer, except exactly when it confirms a ballot not above its own and not of a higher counter than h |
| `BallotNode.BallotProtocol.FederatedAccept` | src/scp/BallotProtocol.cpp:2059-2064 | the acceptance test on the latest envelopes |
| `BallotNode.BallotProtocol.BumpState` | src/scp/BallotProtocol.cpp:331-426 | moves to the new ballot exactly when it is higher and compatible with a commit |
| `Ballot.KeepsHighest` | src/scp/BallotProtocol.cpp:1544-1577 | p is the highest ballot ever accepted as prepared, p' the highest incompatible with it |
| `Ballot.RemembersAll` | src/scp/BallotProtocol.cpp:846-860 | so the two decide whether anything accepted aborts a ballot |
| `BallotNode.BallotProtocol.SetPreparedAccept` | src/scp/BallotProtocol.cpp:835-868 | p, p' and the commit after accepting a ballot as prepared; tells whether anything changed |
| `BallotNode.BallotProtocol.GetPrepareCandidates` | src/scp/BallotProtocol.cpp:635-737 | highest first, exactly the ballots at which, up to a ballot at which the hint stops, some statement heard stops voting or having accepted |
| `BallotNode.BallotProtocol.AttemptPreparedAccept` | src/scp/BallotProtocol.cpp:748-832 | accepts the highest candidate that can be accepted; for a hint that was heard, the highest of all ballots that the hint supports and that can be accepted, or there is none |
| `BallotNode.BallotProtocol.AttemptPreparedConfirmed` | src/scp/BallotProtocol.cpp:870-946 | confirms the highest ratified candidate above h whenever there is one, which for a hint that was heard is the highest of all ballots that the hint supports; the commit is the lowest of the unbroken stretch of ratified candidates down to the ballot; says exactly when the assertions survive |
| `BallotNode.BallotProtocol.FindLow` | src/scp/BallotProtocol.cpp:918-942 | ends where the first candidate is below the ballot or not ratified |
| `BallotSearch.StretchIsLow` | src/scp/BallotProtocol.cpp:918-942 | where the stretch ends is the lowest candidate reached without a gap |
| `BallotNode.BallotProtocol.FindExtendedInterval` | src/scp/BallotProtocol.cpp:1018-1054 | from the highest counter that passes by itself down to the lowest boundary that passes with it, whenever any passes |
| `BallotSearch.PassesAbove` | src/scp/BallotProtocol.cpp:1018-1054 | an interval that passes does so with its lower end raised, which is why stopping at the first failure is right |
| `BallotSearch.IntervalOnce` | src/scp/BallotProtocol.cpp:1018-1054 | that interval is unique |
| `BallotNode.BallotProtocol.AttemptAcceptCommit` | src/scp/BallotProtocol.cpp:1106-1231 | accepts the commit of that interval whenever there is one that raises h; its ends are the best of all counters, and the value is the one the hint votes to commit |
| `BallotNode.BallotProtocol.SetAcceptCommit` | src/scp/BallotProtocol.cpp:1233-1274 | commit, high ballot, phase and current ballot after accepting a commit |
| `BallotNode.BallotProtocol.AttemptConfirmCommit` | src/scp/BallotProtocol.cpp:1371-1434 | externalizes the interval that a quorum accepted whenever there is one: up to the highest of all counters that pass, down to the lowest that passes with it |
| `BallotComplete.CandidateAbove` | src/scp/BallotProtocol.cpp:635-737 | above every ballot that a hint heard supports there is a candidate with at least the same support |
| `BallotComplete.CandidatesAreStops` | src/scp/BallotProtocol.cpp:635-737 | candidates are exactly where statements heard stop, up to where the hint does |
| `BallotComplete.AcceptComplete` | src/scp/BallotProtocol.cpp:748-832 | the highest candidate that can be accepted is the highest ballot that can |
| `BallotComplete.ConfirmComplete` | src/scp/BallotProtocol.cpp:870-910 | the highest candidate that is confirmed and raises h is the highest ballot that does |
| `BallotComplete.UnheardHint` | src/scp/BallotProtocol.cpp:748-832 | for a hint that is nobody's last statement, a ballot that can be accepted and no candidate |
| `BallotComplete.IntervalComplete` | src/scp/BallotProtocol.cpp:1018-1104 | an interval among the boundaries is one among all counters, and every one of those is found |
| `BallotComplete.BestExists` | src/scp/BallotProtocol.cpp:1018-1054 | if any counter from 1 to 2^32 - 1 passes there is an interval; its lower end is zero exactly when a commit from zero on passes |
| `BallotComplete.ZeroOnlyIfClaimed` | src/scp/BallotProtocol.cpp:1204-1224 | that takes a confirm statement with a first counter of zero |
| `BallotComplete.HighestExactly` | src/scp/BallotProtocol.cpp:1083-1104 | the upper end is the highest counter that passes, exactly when not all votes are confirm statements without a common end |
| `BallotComplete.VotesWithoutEnd` | src/scp/BallotProtocol.cpp:1156-1201 | one confirm statement of counter 1: counter 1 is accepted, and the last counter passes too |
| `BallotComplete.HintValue` | src/scp/BallotProtocol.cpp:1114-1151 | the value taken from a hint is the one it votes to commit, or has accepted to |
| `BallotSafety.AcceptedIsPrepared` | src/scp/BallotProtocol.cpp:796-829 | what is accepted as prepared has every incompatible lower ballot backed for abort by a quorum |
| `BallotSafety.AcceptedIsCommit` | src/scp/BallotProtocol.cpp:1156-1201 | a commit is accepted only after a quorum voted for a commit of that value in the first phase |
| `BallotSafety.NotBoth` | src/scp/BallotProtocol.cpp:1766-1848 | no ballot is backed both for commit and for abort |
| `BallotSafety.OthersAborted` | src/scp/BallotProtocol.cpp:1233-1274 | once a value is committed, earlier votes to commit other values are for aborted ballots |
| `BallotSafety.CommitPrepares` | src/scp/BallotProtocol.cpp:1233-1274 | once a value is committed, whatever is prepared makes that value prepared with its counter, so p may have another value than the commit accepted |
| `BallotSafety.InvKept` | src/scp/BallotProtocol.cpp:1766-1848 | every step that passes the test keeps the invariant |
| `BallotSafety.Agreement` | src/scp/BallotProtocol.cpp:1233-1274 | over all runs whose steps pass the test, that is in which the assertions hold, well-behaved nodes that accepted or externalized a commit, at whatever time, have one value |
| `BallotExternalize.ValueStays` | src/scp/BallotProtocol.cpp:1106-1459 | with or without assertions, a commit once accepted keeps its value |
| `BallotExternalize.BoundKept` | src/scp/BallotProtocol.cpp:1766-1848 | every step keeps it so that nodes have accepted one value at most and externalized values have a quorum behind them |
| `BallotExternalize.ExternalizedAgree` | src/scp/BallotProtocol.cpp:1436-1459 | over all runs, with or without assertions, well-behaved nodes never externalize different values |
| `BallotSplit.SplitRun` | src/scp/BallotProtocol.cpp:912-943 | a run without assertions, of sane and newer statements, in which two well-behaved nodes accept commits of different values |
| `BallotRuns.AllExternalize` | src/scp/BallotProtocol.cpp:1766-1848 | whatever the value, well-behaved nodes with slices among themselves have a run in which all externalize it |
| `BallotRuns.ThirdFaultyRun` | src/scp/BallotProtocol.cpp:1766-1848 | so do all well-behaved ones of 3f + 1 nodes of which up to f misbehave, and they satisfy the assumptions of the agreement theorems |
| `BallotCluster.Attempt` | src/scp/BallotProtocol.cpp:1766-1848 | a call on a node's object takes the step that the node's state and what it has heard determine, or none because there is none |
| `BallotCalls.AnswersOnce` | src/scp/BallotProtocol.cpp:748-1434 | the step a call takes is unique |
| `BallotCalls.TurnsOnce` | src/scp/BallotProtocol.cpp:1766-1848 | a sequence of calls determines the steps taken, the statements sent and the states |
| `BallotCluster.Play` | src/scp/BallotProtocol.cpp:1766-1848 | any sequence of calls on the objects of a network, with statements received late, again or not at all: one step in order for each call that finds one on a node that can still speak, together a run, and what is externalized is one value |
| `BallotDrive.StageAnswers` | src/scp/BallotProtocol.cpp:748-1434 | from first ballot to the end, each attempt on what everyone said last finds the step to the next stage |
| `BallotDrive.ExternalizeAll` | src/scp/BallotProtocol.cpp:1766-1848 | calls on the objects of a network of nodes with slices among themselves bring all of them to externalize the value, none crashing, and are a run |
| `BlockExchange.Gcd` | lib/util/getopt_long.c:107-121 | the result divides both numbers and every common divisor divides it |
| `BlockExchange.Bezout` | lib/util/getopt_long.c:107-121 | the greatest common divisor is an integer combination of the two lengths, which is why its cycles cover a residue class |
| `BlockExchange.CyclesVisitOnce` | lib/util/getopt_long.c:134-150 | gcd-many cycles of length N/gcd visit every slot of the two blocks exactly once |
| `BlockExchange.FollowCycle` | lib/util/getopt_long.c:143-156 | one cycle moves exactly its own slots to their places and leaves the rest of the array alone |
| `BlockExchange.PermuteArgs` | lib/util/getopt_long.c:122-158 | the two blocks trade places, each in its own order, everything else untouched |
| `Getopt.SearchLoop` | lib/util/getopt_long.c:186-219 | a name finds the first exact entry, else the first it abbreviates, else none; or is ambiguous when another abbreviated entry conflicts |
| `Getopt.DenotesOnce` | lib/util/getopt_long.c:186-219 | that meaning of a name is unique |
| `Getopt.Scanner.ParseLong` | lib/util/getopt_long.c:164-283 | report, argument and advance of a long option, for every case of arguments and errors; `GetoptSpelling.NameReads` says what they are for every spelling |
| `Getopt.Scanner.ParseShort` | lib/util/getopt_long.c:421-476 | report, argument, advance and what is left of a cluster, for a short option |
| `Getopt.Scanner.Gather` | lib/util/getopt_long.c:362-371 | the pending non-options move up to the current element, options behind them move down |
| `Getopt.Scanner.FetchElement` | lib/util/getopt_long.c:323-397 | non-options are skipped into the pending block until an option element or the end, including `--` |
| `Getopt.Scanner.Settle` | lib/util/getopt_long.c:326-343 | at the end of the run the pending block is last and `optind` points at it |
| `Getopt.Scanner.Continue` | lib/util/getopt_long.c:319-477 | a call in the middle of a run keeps the arrangement invariant and reports the next event, or ends the run |
| `Getopt.Scanner.Next` | lib/util/getopt_long.c:289-477 | any call, also one that restarts the scan |
| `Getopt.ReadingKeepsOrder` | lib/util/getopt_long.c:289-477 | options and non-options each keep their original order and nothing is lost |
| `Getopt.RunIsStable` | lib/util/getopt_long.c:289-477 | the final argument vector is a permutation of the original, stable on both sides |
| `Getopt.ReadAll` | lib/util/getopt_long.c:289-477 | a whole run: answers, `optarg`, `*idx` and `optopt` after each call are those of a reading that moves nothing; at -1 the consumed options come first, then the rest, with `optind` between them |
| `GetoptSpelling.NameReads` | lib/util/getopt_long.c:164-283 | a name or an unambiguous abbreviation, bare, with `=` and an argument, or before its argument, is read as its table entry with that argument; a superfluous or missing argument, an unknown or ambiguous name gives the answer for it |
| `GetoptSpelling.LetterTakes` | lib/util/getopt_long.c:447-475 | a letter with its argument attached or following, or without an optional one, and the answer for a missing one |
| `GetoptSpelling.LettersRead` | lib/util/getopt_long.c:421-476 | a cluster is read letter by letter, each with its report, up to the letter, the `W` or the name that ends it |
| `GetoptSpelling.LineReads` | lib/util/getopt_long.c:289-477 | a command line of options in any spelling among words is read as exactly those options with those arguments and indices, leaving exactly those words |
| `GetoptSpelling.Dissect` | lib/util/getopt_long.c:289-477 | every argument list spells a command line |
| `GetoptSpelling.OneEntry` | lib/util/getopt_long.c:186-212 | the beginning of the names of one entry only denotes that entry |
| `GetoptSpelling.TwoEntries` | lib/util/getopt_long.c:206-219 | the beginning of two names that do different things is ambiguous |
| `GetoptSpelling.ReadCommandLine` | lib/util/getopt_long.c:289-477 | a run on any argument vector reports and leaves what every command line that it spells means |
| `JsonText.Utf8RoundTrip` | lib/json/jsoncpp.cpp:100-126 | every code point up to 0x10FFFF is encoded in the well-formed shortest UTF-8 sequence of section 3 of RFC 3629, which decodes to it |
| `JsonText.QuotedString` | lib/json/jsoncpp.cpp:3075-3130 | the short way for plain strings and the escaping loop spell the same literal |
| `JsonText.UnescapeEscaped` | lib/json/jsoncpp.cpp:793-844 | reading an escaped string gives the string back |
| `JsonSpelling.ReadExactly` | lib/json/jsoncpp.cpp:793-901 | the characters between quotes are read as a string exactly when they spell it by section 7 of RFC 8259, and refused exactly when an escape that is not allowed follows what can be read |
| `JsonSpelling.Utf8Once` | lib/json/jsoncpp.cpp:100-126 | a code point has one UTF-8 form |
| `JsonText.SurrogatePair` | lib/json/jsoncpp.cpp:846-873 | a surrogate pair of escapes stands for the code point beyond the basic plane that it splits (section 7 of RFC 8259) |
| `JsonDecode.Threshold` | lib/json/jsoncpp.cpp:704-726 | the threshold test is exact: it gives up on a digit exactly when the whole number exceeds the 64-bit bound, and otherwise the next value stays within it |
| `JsonReader.Reader.SkipSpaces` | lib/json/jsoncpp.cpp:493-501 | the cursor moves past all white space and no further |
| `JsonReader.Reader.Match` | lib/json/jsoncpp.cpp:503-512 | succeeds exactly when the pattern stands at the cursor |
| `JsonReader.Reader.ReadString` | lib/json/jsoncpp.cpp:575-585 | stops behind the first quote that is not escaped |
| `JsonReader.Reader.ReadComment` | lib/json/jsoncpp.cpp:514-564 | where either kind of comment ends, and when it is none |
| `JsonReader.Reader.ReadToken` | lib/json/jsoncpp.cpp:422-491 | kind and extent of the next token; every token but the end of the document takes up at least one character |
| `JsonReader.Reader.RecoverFromError` | lib/json/jsoncpp.cpp:913-924 | terminates behind the first token of the given kind or the end, and records no error |
| `JsonReader.Reader.ReadDigits` | lib/json/jsoncpp.cpp:704-727 | a digit string is read exactly if it fits, found too large exactly if it does not |
| `JsonReader.Reader.DecodeNumber` | lib/json/jsoncpp.cpp:689-735 | the number of a number token, with its tag, or the library's reading of it as a real |
| `JsonReader.Reader.DecodeUnicodeEscapeSequence` | lib/json/jsoncpp.cpp:875-901 | the number four hexadecimal digits spell, or an error |
| `JsonReader.Reader.DecodeUnicodeCodePoint` | lib/json/jsoncpp.cpp:846-873 | the code point and where its escapes end, or an error |
| `JsonReader.Reader.DecodeString` | lib/json/jsoncpp.cpp:793-844 | what the literal spells by section 7 of RFC 8259; an error is recorded exactly when an escape in it is not allowed |
| `JsonReader.Reader.ReadArray` | lib/json/jsoncpp.cpp:642-677 | agrees with the grammar; the stack below its array is restored; fails exactly with a new error |
| `JsonReader.Reader.ReadObject` | lib/json/jsoncpp.cpp:587-640 | agrees with the grammar; the stack below its object is restored; fails exactly with a new error |
| `JsonReader.Reader.ReadValue` | lib/json/jsoncpp.cpp:332-403 | terminates, agrees with the grammar, restores the node stack, and fails exactly when an error was added |
| `JsonReader.Reader.Parse` | lib/json/jsoncpp.cpp:291-330 | for every document and setting: terminates, leaves one node, answers yes exactly when no error is recorded, and then returns what the grammar gives |
| `JsonReader.InsertTwice` | lib/json/jsoncpp.cpp:618-622 | making room for a member before reading it changes nothing in the result |
| `JsonLayout.ReadsValue` | lib/json/jsoncpp.cpp:332-403 | wherever the tokens of a value stand, with any white space before each, the reader finds that value and stops behind it |
| `JsonLayout.ReadsItems` | lib/json/jsoncpp.cpp:652-677 | the same for the elements of an array from any index on |
| `JsonLayout.ReadsMembers` | lib/json/jsoncpp.cpp:592-640 | the same for the members of an object from any index on |
| `JsonLayout.DecodesInt` | lib/json/jsoncpp.cpp:689-735 | the text of every number in range decodes to that number |
| `JsonSqueeze.SqueezeLaid` | lib/json/jsoncpp.cpp:3162-3375 | all layouts of the same tokens are one text once white space outside literals is removed |
| `JsonSqueeze.ValueTokens` | lib/json/jsoncpp.cpp:3162-3208 | everything a value is written with is a literal, or has neither quotes nor white space |
| `JsonWriter.UintToString` | lib/json/jsoncpp.cpp:145-151 | writes the canonical numeral backwards, inside the buffer and with room for a sign |
| `JsonWriter.IntToString` | lib/json/jsoncpp.cpp:3003-3014 | the decimal text of a signed number |
| `JsonWriter.NatToString` | lib/json/jsoncpp.cpp:3016-3022 | the decimal text of an unsigned number |
| `JsonWriter.FastWriter.Write` | lib/json/jsoncpp.cpp:3154-3208 | the text is exactly the tokens of the value, blanks behind colons under the YAML option, less the nulls if they are dropped |
| `JsonWriter.FastIsTokens` | lib/json/jsoncpp.cpp:3161-3167 | dropping makes no difference to a value without nulls |
| `JsonWriter.StyledWriter.IsMultilineArray` | lib/json/jsoncpp.cpp:3322-3345 | the dry run leaves document and indentation alone and collects either nothing or the exact text of every element |
| `JsonWriter.StyledWriter.WriteLines` | lib/json/jsoncpp.cpp:3285-3307 | one element to a line, collected or written now, lays out the tokens of the array |
| `JsonWriter.StyledWriter.WriteOneLine` | lib/json/jsoncpp.cpp:3308-3318 | the elements on one line lay out the tokens of the array |
| `JsonWriter.StyledWriter.WriteIndent` | lib/json/jsoncpp.cpp:3354-3363 | adds white space only |
| `JsonWriter.StyledWriter.Write` | lib/json/jsoncpp.cpp:3216-3320 | the document is a layout of the tokens of the value |
| `JsonRoundTrip.LaidReads` | lib/json/jsoncpp.cpp:291-330 | any layout of a value's tokens parses to that value, except that a strict root refuses exactly the scalars |
| `JsonRoundTrip.NormalIsSame` | lib/json/jsoncpp.cpp:728-734 | the tree read back differs only in the choice of signed or unsigned tag for the same number |
| `JsonRoundTrip.TextDeterminesValue` | lib/json/jsoncpp.cpp:3162-3375 | no text is a layout of two different values |
| `JsonRoundTrip.WriteAndRead` | lib/json/jsoncpp.cpp:291-403 | parsing the output of either writer returns the value; both outputs are the same text without white space outside literals |
| `JsonDropped.LaidRereads` | lib/json/jsoncpp.cpp:332-398 | any layout of a value's tokens without its nulls is read, or refused, as a function of the value says |
| `JsonDropped.KeptExactly` | lib/json/jsoncpp.cpp:3161-3167 | that is the value itself exactly when it is no null, no null ends an array or an object in it, and the reader allows the other nulls to be missing |
| `JsonRoundTrip.WriteWithoutNulls` | lib/json/jsoncpp.cpp:3154-3208 | the round trip through the writer that drops nulls, for every setting of writer and reader |
| `JsonRoundTrip.LostNulls` | lib/json/jsoncpp.cpp:3161-3167 | values that do not come back: a null, an array of one null, a null behind a comma, a null member |
| `BitStrings.PartialBits` | lib/util/basen.h:253-259 | the digit taken from inside a byte, signed shift included, is the next bits of that byte |
| `BitStrings.OverlappingBits` | lib/util/basen.h:261-269 | the digit across a byte border is the rest of one byte and the first bits of the next |
| `Basen.EncodeDigits` | lib/util/basen.h:214-245 | the loop with its backlog regroups the bits of the message into digits, zero-filled |
| `Basen.Pad` | lib/util/basen.h:246-250 | the padding loop adds the characters that complete the quantum |
| `Basen.Encode` | lib/util/basen.h:211-251 | the text is the encoding of RFC 4648 (sections 4, 6, 8) |
| `Basen.EncodesOnce` | lib/util/basen.h:211-251 | that encoding is determined character by character |
| `Basen.EncodedLength` | lib/util/basen.h:275-288 | its length is exactly `encoded_size16/32/64` |
| `Basen.EncodeInjective` | lib/util/basen.h:211-251 | different bytes have different texts |
| `Basen.DecodeDigits` | lib/util/basen.h:153-199 | buffer and finished bytes always spell the digits read so far |
| `Basen.Decode` | lib/util/basen.h:150-209 | the bytes are the bits of the text's digits, leftover bits dropped or kept by the padding rule |
| `Basen.DecodesOnce` | lib/util/basen.h:150-209 | a text decodes to one byte string only |
| `Basen.RoundTrip` | lib/util/basen.h:150-269 | decoding an encoded text gives the bytes back, whatever blanks and foreign characters other than `=` were inserted |
| `Basen.StripNoise` | lib/util/basen.h:164-173 | characters inserted anywhere do not matter |
| `Basen.TraitsValid` | lib/util/basen.h:60-148 | the three alphabets are bijective with their digits and avoid blanks and `=` |
| `Basen.EncodeDecode` | lib/util/basen.h:150-288 | encode then decode, for each of the three bases |
| `BasenTables.DictionaryIsTable` | lib/util/basen.h:67-122 | the dictionaries are tables 5, 3 and 1 of RFC 4648 by character code |
| `BasenTables.DecodeIsTable` | lib/util/basen.h:74-147 | a character decodes to the value it stands for in the table, and to -1 exactly if it is not in it |
| `BasenTables.EncodingTabulated` | lib/util/basen.h:211-269 | character k of an encoding is the table's letter for bits kg to kg + g of the bytes, followed by the padding |
| `BasenTables.TabulatedOnce` | lib/util/basen.h:211-269 | which is one text only |
| `BasenTables.EncodeByTable` | lib/util/basen.h:150-288 | encoding spells the bits in the table of the base and decoding gives the bytes back |
| `BasenTables.Blockwise` | lib/util/basen.h:211-251 | whole blocks may be encoded one after the other |
| `BasenTables.ExamplesSixtyFour` | lib/util/basen.h:110-148 | the examples of section 10 of RFC 4648 in base 64 |
| `BasenTables.ExamplesThirtyTwo` | lib/util/basen.h:85-108 | in base 32 |
| `BasenTables.ExamplesSixteen` | lib/util/basen.h:60-83 | in base 16 |
| `Uint128.OrderIsValueOrder` | lib/util/uint128_t.cpp:159-179 | comparison of limbs is comparison of values |
| `Uint128.AddValue` | lib/util/uint128_t.cpp:181-183 | addition with its carry is addition modulo 2^128 |
| `Uint128.SubValue` | lib/util/uint128_t.cpp:191-193 | subtraction with its borrow is subtraction modulo 2^128 |
| `Uint128.ShlValue` | lib/util/uint128_t.cpp:85-105 | a left shift by any amount multiplies by a power of two modulo 2^128 |
| `Uint128.ShrValue` | lib/util/uint128_t.cpp:107-127 | a right shift by any amount divides by a power of two |
| `Uint128.Bits` | lib/util/uint128_t.cpp:320-338 | the bit length of the value |
| `Uint128.AddRows` | lib/util/uint128_t.cpp:212-228 | the columns hold the ten products below 2^128, and no column sum leaves 64 bits |
| `Uint128.Combine` | lib/util/uint128_t.cpp:230-231 | adding the columns with carries gives their value modulo 2^128 |
| `Uint128.Mul` | lib/util/uint128_t.cpp:200-232 | the product modulo 2^128 |
| `Uint128.BitOrPower` | lib/util/uint128_t.cpp:264 | or-ing in a power of two below the quotient so far adds it |
| `Uint128.DivideRound` | lib/util/uint128_t.cpp:261-268 | a round keeps copyd = rhs*adder, r < 2*copyd and the division identity, and makes the adder smaller |
| `Uint128.DivMod` | lib/util/uint128_t.cpp:239-270 | an exception exactly for a zero divisor; otherwise lhs = q*rhs + r with r < rhs |
| `Uint128.DividedMeans` | lib/util/uint128_t.cpp:239-274 | which makes them the quotient and remainder of the numbers |
| `Uint128.Mod` | lib/util/uint128_t.cpp:281-283 | `lhs - rhs * (lhs / rhs)` is the remainder |
| `Uint128.Str` | lib/util/uint128_t.cpp:340-359 | an exception exactly for a base outside 2 to 16; otherwise the canonical numeral, filled with zeros |
| `Uint128.StrReadsBack` | lib/util/uint128_t.cpp:340-359 | which reads back as the value |
| `Numerals.NumeralUnique` | lib/util/uint128_t.cpp:340-359 | the canonical numeral is the only digit string with that value and no leading zero |
| `Numerals.NumeralReadsBack` | lib/util/uint128_t.cpp:340-359 | reading the canonical numeral of a number gives the number |
| `Crc16.TableIsRemainder` | lib/util/crc16.cpp:47-80 | each of the 256 entries is the remainder of its index, moved up sixteen places, by x^16+x^12+x^5+1 |
| `Crc16.NextCrc` | lib/util/crc16.cpp:86-87 | one table step carries on the polynomial division by eight bits |
| `Crc16.Crc16` | lib/util/crc16.cpp:82-89 | the checksum is the remainder of the message, moved up sixteen places |
| `Crc16.CrcUnique` | lib/util/crc16.cpp:82-89 | that remainder is unique |
| `Crc16.CrcLinear` | lib/util/crc16.cpp:82-89 | the checksum is linear over messages of one length |
| `Crc16.CrcAppended` | lib/util/crc16.cpp:82-89 | a message with its checksum appended has checksum zero |
| `Crc16.BurstDetected` | lib/util/crc16.cpp:47-89 | messages that differ only within sixteen consecutive bits have different checksums, at any length |
| `Crc16.CrcParity` | lib/util/crc16.cpp:47-89 | the checksum has the parity of the message |
| `Crc16.OddErrorsDetected` | lib/util/crc16.cpp:47-89 | any odd number of flipped bits is detected |
| `Sections.PathsInOrder` | lib/catch.hpp:7748-7752 | the k-th listed path leads to leaf k of the document |
| `Sections.PathsDiffer` | lib/catch.hpp:7748-7752 | different leaves have different paths |
| `Sections.TrackerContext.OpenChild` | lib/catch.hpp:9181-9187 | marks the chain of parents up to the first already marked |
| `Sections.TrackerContext.Acquire` | lib/catch.hpp:9261-9282 | finds or registers the child and opens it exactly when neither the cycle nor the child is complete |
| `Sections.TrackerContext.Close` | lib/catch.hpp:9199-9227 | completes the tracker when its last child is complete, ends the cycle, moves to the parent |
| `Sections.TrackerContext.RunSection` | lib/catch.hpp:7804-7842 | with e leaves done, a section runs at most one path in a cycle, exactly that to leaf e |
| `Sections.TrackerContext.RunBody` | lib/catch.hpp:7804-7842 | the same for the sections of a body in turn |
| `Sections.RunCycle` | lib/catch.hpp:7749-7751 | a cycle executes the path to the next leaf and is the last exactly when no leaf is left |
| `Sections.RunTest` | lib/catch.hpp:7748-7752 | the loop terminates; its cycles are all root-to-leaf paths, each once, in document order |
| `LruCache.RunBounded` | lib/util/lrucache.hpp:53-92 | after any operations keys are distinct and the size is within capacity |
| `LruCache.HitIsLastPut` | lib/util/lrucache.hpp:53-92 | what is found is the last value put for the key |
| `LruCache.OrderIsRecency` | lib/util/lrucache.hpp:53-92 | entries are in order of last use, so the one evicted is the least recently used |
| `LruCache.RunNested` | lib/util/lrucache.hpp:53-92 | the contents of a smaller cache are included in those of a larger one, as a subsequence, and the sizes differ by at most the capacities |
| `LruCache.LargerCacheHits` | lib/util/lrucache.hpp:53-92 | every hit of the smaller cache is the same hit in the larger |
| `LruCache.Cache.Insert` | lib/util/lrucache.hpp:53-69 | list and map agree after `put`, and hold the abstract result |
| `LruCache.Cache.Get` | lib/util/lrucache.hpp:71-79 | the value or an exception, and the entry moved to the front |
| `LruCache.Cache.EraseIfExists` | lib/util/lrucache.hpp:81-87 | the entry is gone from list and map |
| `LruCache.Cache.Clear` | lib/util/lrucache.hpp:89-92 | both are empty |
| `LruCache.Cache.Exists` | lib/util/lrucache.hpp:94-96 | the map answers for the list |
| `LruCache.Cache.Size` | lib/util/lrucache.hpp:98-100 | the map's size is the list's length, at most the capacity |
| `LruCache.Replay` | lib/util/lrucache.hpp:43-106 | any sequence of calls on the object is the abstract run |
| `Http.RequestRoundTrip` | lib/http/request_parser.cpp:29-286 | a printed request is read back; the answer is indeterminate at every shorter prefix and good at the last byte |
| `Http.RunAppend` | lib/http/request_parser.hpp:38-49 | feeding a text in two pieces is feeding it whole |
| `Http.ChunksMakeNoDifference` | lib/http/request_parser.hpp:38-49 | the same for any chunks, whatever the text |
| `Http.ChunkedRoundTrip` | lib/http/request_parser.hpp:38-49 | a printed request in any chunks is read back |
| `Http.AcceptedIsWellFormed` | lib/http/request_parser.cpp:29-286 | every accepted request has a token method, a clean uri, token header names and clean values |
| `Http.PrintingIsNormalForm` | lib/http/request_parser.cpp:29-286 | printing what was accepted and reading it again gives the same request |
| `Http.VersionsOnlyGrow` | lib/http/request_parser.cpp:127-177 | version numbers never shrink while they are read |
| `HttpParser.RequestParser.Consume` | lib/http/request_parser.cpp:29-287 | one step of the machine on parser and request; after any text taken without an answer, good with exactly the request that the text so far denotes, indeterminate exactly when it begins a text that denotes one, bad otherwise |
| `HttpParser.RequestParser.Parse` | lib/http/request_parser.hpp:38-49 | answer, state and unread rest of a chunk |
| `HttpLanguage.TokenCharacters` | lib/http/request_parser.cpp:288-337 | the character classes are the token characters of section 3.2.6 of RFC 7230 and the visible characters, by code |
| `HttpLanguage.WrittenIsRead` | lib/http/request_parser.cpp:29-286 | every way of writing a request, with leading zeros and continued header lines, is read as that request |
| `HttpLanguage.ReadIsWritten` | lib/http/request_parser.cpp:29-286 | everything that is read as a request was written as one |
| `HttpLanguage.LanguageExactly` | lib/http/request_parser.cpp:29-286 | for every text: good at its last byte exactly with what it denotes; indeterminate exactly when it is a proper prefix of a text that denotes a request; bad otherwise |
| `HttpLanguage.StepExactly` | lib/http/request_parser.cpp:29-286 | the same for every single byte |
| `HttpLanguage.DenotesOnce` | lib/http/request_parser.hpp:38-49 | no text denotes two requests, and none that denotes one goes on to denote another |
| `HttpParser.Receive` | lib/http/request_parser.hpp:38-49 | a server that feeds any chunks until there is an answer has the request that a beginning of the text denotes, or knows that there is none, or that more is needed |
| `HttpParser.ReceiveRequest` | lib/http/request_parser.hpp:38-49 | a server that feeds arriving chunks ends with the request sent |
| `Format.CountDigitsCorrect` | lib/util/format.h:505-510 | the multiplication by 1233 and the table of powers count the decimal digits of every 64-bit number |
| `Format.CountDigitsByDivision` | lib/util/format.h:520-533 | the fallback by division gives the same count |
| `Format.Pair` | lib/util/format.cc:389-394 | the table holds the two digits of every number below 100 |
| `Format.FormatDecimal` | lib/util/format.h:538-559 | writes exactly the numeral and nothing beside it |
| `Format.FormatInt.WriteDecimal` | lib/util/format.h:2203-2222 | writes the numeral backwards, inside the buffer, with room for a sign |
| `Format.FormatInt.Unsigned` | lib/util/format.h:2238-2240 | the text of an unsigned number |
| `Format.FormatInt.Signed` | lib/util/format.h:2224-2237 | the text of a signed number, the most negative one included |
| `Format.FormatInt.Size` | lib/util/format.h:2242-2245 | the number of characters written |
| `Format.Magnitude` | lib/util/format.h:2225-2228 | negation modulo 2^64 gives the magnitude of every signed number |

## Left out

- `src/`: everything but quorum sets, federated voting and the ballot protocol; in particular nomination, the herder, the ledger, the overlay and the bucket list.
- Ballot protocol: timers, `attemptBump`, the recursion of `advanceSlot`, validation of values, restoring a state from an envelope and the sending of messages. Any node may take any step whenever its guard holds, which covers the order the source tries them in. Quorum sets do not change during a slot. Values are numbers, of which only equality and order matter. Liveness is not stated.
- BallotSafety.Agreement: about runs in which the assertions of `checkInvariants` hold; it fails without them (`BallotSplit.SplitRun`), and `BallotExternalize.ExternalizedAgree` needs none.
- BallotSplit.SplitRun: its steps are guards and transitions of the model; that the recursion of `advanceSlot` can be driven through them in this order is not stated.
- BallotComplete.ConfirmComplete: about the ballot confirmed; the commit that goes with it is described among candidates, which `BallotComplete.CandidatesAreStops` describes, because the search for it passes over ballots of other values that are no candidates.
- BallotCluster.Play: the calls of `advanceSlot` are made one by one, in any order; a node that would dereference a missing ballot in `createStatement` stops.
- Quorum.IsVBlocking: sets of 2^31 entries or more, and the one threshold at which the counter is the least 32-bit int, whose decrement is undefined in the source.
- Federated.Agreement: which statements a node votes for is the caller's affair; a vote never contradicts an earlier one.
- LocalNode: node weights, `isNodeInQuorum`, printing.
- getopt: error messages, `POSIXLY_CORRECT`, the modes of a leading `+` or `-`, the store through `flag`; a missing option table, which can end a run at an argument such as `-a-`, and entries with value -1 and no flag are excluded.
- JSON: comments are skipped but not attached to values, and source offsets are not kept; `StyledStreamWriter`, `Path` and iterators are not modelled.
- JSON reals: `sscanf` and `snprintf` are two functions given to the model. `JsonRoundTrip.LaidReads` covers a real when its text is a number the reader accepts, and returns what the reader makes of that text; that it is the same real is a fact about those functions.
- JsonReader.Reader.ReadValue: the references on the source's node stack are modelled as values that are put back into their parents when popped; the value left behind by a failed parse is not described.
- JsonReader.Reader.AddError: the wording of messages is replaced by an enumeration.
- JsonReader.Reader.DecodeNumber: the least signed number is returned as it is; the source negates its magnitude as a signed number, which is undefined.
- JsonWriter.IntToString: the least signed number is excluded, its negation being undefined in the source.
- JsonWriter.StyledWriter.IsMultilineArray: line lengths are unbounded integers.
- Uint128: the operators of the header that mix widths.
- Sections: filters, generators, failing or throwing sections, reporters. Tracker pointers are modelled as paths in the tree.
- LruCache: the storage of the list; an iterator is a node reference.
- Http: url decoding, replies, sockets and the server loop.
- Format: argument parsing and every formatter but the decimal one; the 32-bit digit count.
