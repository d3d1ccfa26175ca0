# Verified models of the task daemon's core

This project models the parts of the system whose correctness rests on interplay
rather than on one branch, and proves what they promise. `dafny verify dfyconfig.toml`
checks all of it.

| component | modules | source |
|---|---|---|
| Operator asks and task lifecycle, one SQL statement at a time | `Lifecycle`, `AskRace`, `AskRaceInvariant`, `AskRaceResults` | db/src/asks.rs, db/src/tasks.rs |
| The same protocol, one transaction at a time | `AskSpec`, `AskRuns`, `AskStore`, `AskLevels` | db/src/asks.rs, db/src/tasks.rs |
| Leak scanner: streaming matcher and redactor | `Fingerprint`, `LeakSpec`, `RollingMatcher`, `Redact`, `RedactRuns`, `RedactMarkers`, `LeakAgreement` | leak-scan/src |
| Knowledge-graph walks | `Graph`, `GraphWalks`, `WalkListing` | db/src/graph.rs |
| Burst thinning of audit reports | `BurstSpec`, `Thinning` | core/src/audit_thinning.rs |
| Handoff cache | `HandoffSpec`, `Handoff` | core/src/handoff.rs |
| NUL escaping of JSON records | `Nul` | db/src/nul.rs |
| Notebook sequence numbers | `Notebook` | db/src/notebook.rs |
| Keyword classifier | `Classifier` | core/src/classification_inference.rs |

`Sequences` holds the two sequence notions that several of them share.

How each is set up:

- **Asks, statement level.** A world holds the committed `tasks` and `asks` rows, row locks and any number of
  transactions in flight, each with its uncommitted row versions. Statements of different transactions interleave
  freely, multi-row updates are split into a scan and one step per row, a step that would block is not enabled,
  and any transaction may abort at any point. Deadlock victims are aborts.
- **Asks, transaction level.** `AskSpec.Step` gives each transaction's effect as a function; `AskRuns` proves what every
  run keeps; the methods of `AskStore.Store` do the updates in place and are proved to make exactly those steps.
  `AskLevels.ReachableIsRun` is what licenses this level: every world that the interleavings reach shows the tables
  of a transaction-level run, so what holds after every run holds in every such world. An event names the id its
  sequence gave it and the rows an expiry took, because a rollback leaves a gap and a sweep can miss a late ask.
- **Leak scanner.** SHA-256 is an arbitrary function. Both detectors are proved against one definition: some window
  has the length, 64-bit fingerprint and digest of a pattern.
- **Graph.** `relations` is a finite set of edges with unique ids; parallel edges and self-loops are allowed. The recursive queries are
  the levels of their working table.
- **Thinning and handoff.** The specification is a function of the whole history of calls; the class holds only the
  source's counters and queues, and each method is proved to keep up with the history.
- **Notebook.** Statement-level interleavings of any number of appends and of followers that poll from their last number.

Where the code and its own comments disagree, the model follows the code:

- The comment at db/src/tasks.rs:355-358 says the second ask sweep of `mark_cancelled` cannot deadlock.
  `AskRaceResults.CancelCanDeadlock` is a reachable wait cycle with a resolver; `AskRaceResults.CancelWaitCycle` shows that
  every wait cycle a cancel is on, of any length, has a second sweep waiting for an ask committed after the first sweep's
  scan; `AskRaceResults.SecondSweepDeadlockIff` says when a blocked second sweep is such a cycle.
- `Cancellation::previous_state` (db/src/tasks.rs:436-446) is documented as the state immediately before the cancel. When the row
  is inserted between the FOR UPDATE read and the update it is empty: `AskRaceResults.InsertAfterReadMisreports`.
  `AskRaceResults.CancelLeavesNothingPending` says exactly when: the report is the state overwritten if the row was there when
  it was read, and empty otherwise.
- `finalize` (db/src/tasks.rs:213-266) says that values outside its documented set are rejected by the CHECK constraint, but that constraint
  admits `awaiting_operator`. `AskRuns.FinalizePairedIff` says exactly when this breaks the pairing of tasks and asks. The
  whole-run results assume that `finalize` is given a terminal state.
- `contains_word` (core/src/classification_inference.rs:151-185) is documented as finding a needle bounded by
  non-alphanumeric characters. Its scan does not overlap matches, so it can miss one: `Classifier.ScanMissesWord`.
  `Classifier.ScanExactIff` gives the phrases for which it is right on every text; every whole-word phrase of the catalogues is one.

## Model

| member | source | states |
|---|---|---|
| `AskRaceInvariant.StepKeeps` | db/src/tasks.rs:338-429 | every statement of every transaction keeps the pairing of tasks and asks and each transaction's local promises |
| `AskRaceInvariant.RunKeeps` | db/src/asks.rs:797-899 | the invariant holds after every interleaving |
| `AskRaceResults.ReachablePaired` | db/src/asks.rs:797-899 | in every reachable world a task is `awaiting_operator` exactly when it has one committed pending ask, and every other task has none |
| `AskRaceResults.CancelLeavesNothingPending` | db/src/tasks.rs:365-429 | a committed cancel leaves its task cancelled with no pending ask, for good; it reports the state its update overwrote if the row was there when read, as it was whenever the task existed at the call, and nothing otherwise |
| `AskRaceResults.ResolverNeverStranded` | db/src/asks.rs:797-819 | the "task cannot resume" error is unreachable: a resolver that holds its ask finds the task awaiting |
| `AskRaceResults.ExpiryNeverWarns` | db/src/asks.rs:840-899 | the "no longer awaiting_operator" warning branch is unreachable |
| `AskRaceResults.RaiseCommitIsAtomic` | db/src/asks.rs:345-426 | committing a raise installs exactly the suspension and the new ask |
| `AskRaceResults.ResolveCommitIsAtomic` | db/src/asks.rs:470-506 | committing a resolve installs exactly the answered ask and the resumed task |
| `AskRaceResults.ExpireCommitIsAtomic` | db/src/asks.rs:840-899 | committing an expiry sweep installs exactly the expired asks and the failure of their tasks |
| `AskRaceResults.CancelCommitIsAtomic` | db/src/tasks.rs:365-429 | committing a cancel withdraws every ask of the task pending at that instant, no other |
| `AskRaceResults.CommitIsAtomic` | db/src/tasks.rs:338-429 | every commit of every interleaving does to the committed tables what its whole transaction would do alone at that instant |
| `AskRaceResults.RunSettles` | db/src/asks.rs:470-506 | over every interleaving an ask leaves `pending` at most once and a terminal task state is never left |
| `AskRaceResults.SingleSweepStrandsAsk` | db/src/tasks.rs:338-363 | without the second sweep a reachable commit leaves a live ask on a cancelled task |
| `AskRaceResults.UnlockedReadMisreports` | db/src/tasks.rs:485-502 | without FOR UPDATE a cancel can report `running` for a task it took out of `awaiting_operator` |
| `AskRaceResults.InsertAfterReadMisreports` | db/src/tasks.rs:424-428 | a row inserted between the read and the update is cancelled out of `pending` with an empty report |
| `AskRaceResults.RunKeepsLocksBacked` | db/src/tasks.rs:365-429 | a row lock is held only by a transaction that wrote the row, or by a cancel that read it FOR UPDATE |
| `AskRaceResults.SecondSweepWaitsForLateAsk` | db/src/tasks.rs:338-363 | the second sweep only ever waits for an ask its first sweep could not see |
| `AskRaceResults.CancelWaitCycle` | db/src/tasks.rs:338-363 | a cancel on a wait cycle of any length is, or waits for, a second sweep blocked on an ask committed after its first scan |
| `AskRaceResults.SecondSweepDeadlockIff` | db/src/tasks.rs:338-363 | a blocked second sweep is in a deadlock with the transaction it waits for if and only if that one is done with its ask rows and next needs a task row |
| `AskRaceResults.CancelCanDeadlock` | db/src/tasks.rs:338-363 | such a cycle is reachable |
| `AskRaceResults.ProceedsIffRowFits` | db/src/tasks.rs:391-410 | in every interleaving a transaction that waits for nobody can go on, except that a raise needs a running task, a resolve a pending ask and a cancel a task that is pending, running or awaiting the operator |
| `AskLevels.CancelLevels` | db/src/tasks.rs:365-429 | both levels agree on what a cancel does to the two tables |
| `AskLevels.RaiseLevels` | db/src/asks.rs:345-426 | the same for a raise, whatever unused id its ask was given |
| `AskLevels.ResolveLevels` | db/src/asks.rs:470-506 | the same for a resolve of a live ask with an offered choice |
| `AskLevels.ExpireLevels` | db/src/asks.rs:840-899 | the same for a sweep that took any of the asks due at its clock reading |
| `AskLevels.CommitIsStep` | db/src/asks.rs:345-899 | in every interleaving a commit takes the committed tables where the transaction-level step takes them |
| `AskLevels.SimulateStep` | db/src/asks.rs:345-899 | every statement, commit and rollback is matched by one transaction-level event or none |
| `AskLevels.Simulated` | db/src/asks.rs:345-899 | every interleaving can be dated and is then matched by a run with the same tables and, per task, as many claims |
| `AskLevels.ReachableIsRun` | db/src/asks.rs:345-899 | every world the interleavings reach shows the tables of some run |
| `AskLevels.DatedIsRun` | db/src/asks.rs:345-899 | whatever ids, options, nonces, deadlines and clock readings an interleaving ran with, its tables are those of the run of its events |
| `AskLevels.TaskEventIsStep` | db/src/tasks.rs:141-581 | conversely each claim, conditional cancel, finalize or fail that changes a free row is a step of the interleaving |
| `AskLevels.RaceAnsweredInTime` | db/src/asks.rs:470-506 | in every interleaving, with its own deadlines and readings, a resolved ask was answered strictly before its deadline with a choice it offered |
| `AskLevels.RaceOneWithdrawal` | db/src/asks.rs:840-938 | in every interleaving at most one ask per task is expired or cancelled, and the task is then terminal |
| `AskLevels.RaceClaimsBounded` | db/src/tasks.rs:141-174 | in every interleaving a task is claimed at most 1 + (resolved asks) times |
| `AskRuns.StepKeeps` | db/src/asks.rs:345-899 | every transaction keeps the pairing, in-time answers with offered choices, one withdrawal per task, and every settled row |
| `AskRuns.RunInv` | db/src/asks.rs:470-778 | after every run: tasks await exactly with one pending ask; a resolved ask was answered strictly before its deadline with an offered choice; at most one ask per task is expired or cancelled, and its task is terminal |
| `AskRuns.RunSettles` | db/src/tasks.rs:141-784 | what is terminal or settled after a run is unchanged by any continuation |
| `AskRuns.ResolveNeverStranded` | db/src/asks.rs:797-819 | resolving a live ask ends in success or in the choice being refused, never in a stranded task |
| `AskRuns.ClaimBudget` | db/src/tasks.rs:141-174 | claims, plus one if the task is pending, are at most one more than its resolved asks |
| `AskRuns.ClaimsBounded` | db/src/tasks.rs:141-174 | over every run a task is claimed at most 1 + (resolved asks) times |
| `AskRuns.FinalizePairedIff` | db/src/tasks.rs:233-266 | `finalize` keeps the tables paired if and only if it does not move a running task to `awaiting_operator` |
| `AskRuns.FinalizeCanWedge` | db/src/tasks.rs:233-266 | a run in which it leaves a task waiting with no ask |
| `AskRuns.NonceIdentifiesAsk` | db/src/asks.rs:531-540 | a nonce matches at most one live ask, and for one claimant only |
| `AskRuns.CancelTakesUnended` | db/src/tasks.rs:393-410 | a cancel takes every task that is pending, running or awaiting the operator, and leaves every other alone |
| `AskRuns.ExpiresExactlyLate` | db/src/asks.rs:840-899 | a pending ask is expired exactly when the sweep took it and its deadline lies strictly before the reading; a full sweep expires every late one |
| `AskRuns.ResolvesExactlyInTime` | db/src/asks.rs:470-506 | after any run a pending ask is resolved, and its task resumed, exactly when the answer comes strictly before the deadline and names an option; otherwise nothing changes |
| `AskRuns.LeaseDivides` | db/src/tasks.rs:567-620 | at one reading `tasks fail` takes a running task whose lease lies ahead, the crash sweep one whose lease lies behind, and never both |
| `AskStore.Store.InsertPending` | db/src/tasks.rs:110-129 | adds one pending task under an unused id, or nothing exactly when some string or key of the payload holds a NUL |
| `AskStore.Store.ClaimOne` | db/src/tasks.rs:141-174 | claims an oldest claimable pending task of the lane that no one else holds; none exactly when there is none |
| `AskStore.Store.Finalize` | db/src/tasks.rs:233-266 | a task that is not running is left alone, a running one leaves `running`, and the tables stay paired unless a running task is sent to `awaiting_operator` |
| `AskStore.Store.MarkCancelled` | db/src/tasks.rs:365-429 | cancels a task that is pending, running or awaiting the operator, reporting that state and how many asks it withdrew; changes nothing for any other |
| `AskStore.Store.MarkCancelledIfPending` | db/src/tasks.rs:523-541 | cancels a pending task only, and says whether it did |
| `AskStore.Store.MarkFailedRunning` | db/src/tasks.rs:567-581 | marks crashed a running task whose lease has not yet elapsed, no other, and says whether it did |
| `AskStore.Store.SweepCrashed` | db/src/tasks.rs:604-620 | marks crashed exactly the running tasks with an elapsed lease |
| `AskStore.Store.CancelForTask` | db/src/asks.rs:924-938 | afterwards no ask of the task is pending, so a second sweep moves nothing; no other ask changes; with the tables paired it moves one ask or none, as the task awaits or not |
| `AskStore.Store.Raise` | db/src/asks.rs:345-426 | suspends and asks together, or changes neither table, whether or not the sequence has moved on |
| `AskStore.Store.FinishResolve` | db/src/asks.rs:797-819 | answers and resumes together, or changes nothing |
| `AskStore.Store.Resolve` | db/src/asks.rs:470-506 | resolves a live ask by id; the outcome for every other case |
| `AskStore.Store.ResolveWithNonce` | db/src/asks.rs:647-691 | resolves the claimant's own live ask of that nonce, in the name channel/peer; nothing for anyone else |
| `AskStore.Store.AnyLiveNonce` | db/src/asks.rs:564-587 | true exactly when one of the nonces would resolve for the claimant |
| `AskStore.Store.FailTasksOf` | db/src/asks.rs:840-899 | fails exactly the suspended tasks of the due asks; with one suspended task per ask, reports every ask |
| `AskStore.Store.ExpireDue` | db/src/asks.rs:840-899 | expires exactly the due asks and fails their tasks in one step |
| `Fingerprint.Poly` | leak-scan/src/fingerprint.rs:66-72 | the accumulator loop computes the positional polynomial modulo 2^64 |
| `Fingerprint.PowBase` | leak-scan/src/fingerprint.rs:43-49 | the weight of the leaving byte modulo 2^64 |
| `Fingerprint.RollCorrect` | leak-scan/src/matcher.rs:107-114 | one wrapping roll of a window's fingerprint is the fingerprint of the next window |
| `Fingerprint.FingerprintValue` | leak-scan/src/fingerprint.rs:76-88 | a fingerprint exactly for values of an accepted length, and it is the value's print |
| `LeakSpec.IndexPatterns` | leak-scan/src/matcher.rs:52-81 | the target table lists exactly the patterns of an accepted length |
| `LeakSpec.SecretAlwaysOccurs` | leak-scan/src/matcher.rs:89-133 | a fingerprinted secret in the input always matches, whatever the hashes |
| `LeakSpec.OccurrenceIsSecret` | leak-scan/src/matcher.rs:115-128 | where no window has the digest of a secret of its length without being it, a window matches if and only if it is a secret byte for byte |
| `RollingMatcher.SlotsDiffer` | leak-scan/src/matcher.rs:52-81 | with capacity maxLen+1 a new byte overwrites no byte that a window or the roll still needs |
| `RollingMatcher.RingAdvances` | leak-scan/src/matcher.rs:94-97 | storing a byte keeps the ring equal to the last `cap` bytes of the stream |
| `RollingMatcher.RollingMatcher.constructor` | leak-scan/src/matcher.rs:52-81 | a valid matcher on the empty stream, groups covering every usable pattern |
| `RollingMatcher.RollingMatcher.ReadWindow` | leak-scan/src/matcher.rs:142-147 | the ring read yields the last `len` bytes of the stream |
| `RollingMatcher.RollingMatcher.Advance` | leak-scan/src/matcher.rs:98-114 | priming or rolling leaves the group's hash equal to its window's polynomial |
| `RollingMatcher.RollingMatcher.Confirm` | leak-scan/src/matcher.rs:115-128 | a hit exactly when the window ending here matches a pattern of the group's length |
| `RollingMatcher.RollingMatcher.FeedByte` | leak-scan/src/matcher.rs:94-130 | a hit exactly when some window ends at this byte |
| `RollingMatcher.RollingMatcher.Feed` | leak-scan/src/matcher.rs:89-133 | None with the stream still clean, or a hit at the least end index of any matching window, and of the windows that end there the one whose length group comes first |
| `RollingMatcher.FirstUnique` | leak-scan/src/matcher.rs:98-128 | the order of the length groups determines which of several windows ending together is reported |
| `Redact.ScanLength` | leak-scan/src/redact.rs:90-114 | the rolling scan of one length finds exactly the matching windows of that length, each once |
| `Redact.Collect` | leak-scan/src/redact.rs:72-114 | the scan over all lengths finds exactly the matching windows, each once |
| `Redact.SortIsSorted` | leak-scan/src/redact.rs:127-127 | the sort orders by offset, longer first, and keeps exactly the spans |
| `Redact.AddSpanMerges` | leak-scan/src/redact.rs:128-141 | adding the next span keeps the runs ordered, disjoint and equal to the union of the spans so far |
| `Redact.AddSpanGrown` | leak-scan/src/redact.rs:128-141 | a span that starts strictly before the end of the last run extends it, and one at or after that end starts another |
| `Redact.MergeRuns` | leak-scan/src/redact.rs:128-141 | the runs carry every span in order, are exactly their union and disjoint; each reaches from its first span to the greatest end of its own, and each later span of a run starts strictly before the end reached |
| `Redact.FirstSeen` | leak-scan/src/redact.rs:155-178 | a run's marker names each digest once |
| `Redact.PushMarker` | leak-scan/src/redact.rs:44-55 | appends the marker with the first eight hex digits of each digest, joined by `+` |
| `Redact.Splice` | leak-scan/src/redact.rs:155-178 | the output is the input with each run replaced by one marker |
| `Redact.Redact` | leak-scan/src/redact.rs:72-179 | hits are exactly the matching windows, by offset and longer first, the runs their merged overlaps, the output the splice over those runs |
| `RedactRuns.RunsDetermined` | leak-scan/src/redact.rs:116-141 | the hits determine the runs, with the spans each carries |
| `RedactRuns.OutputDetermined` | leak-scan/src/redact.rs:72-179 | the input and the patterns determine the hits and every byte of the output, in whatever order the tables are walked |
| `RedactRuns.ShareMarkerIffJoined` | leak-scan/src/redact.rs:67-71 | two hits are redacted under one marker if and only if a chain of hits, each strictly overlapping the next, joins them; adjacent hits stay separate |
| `RedactRuns.MarkerNamesOwnHits` | leak-scan/src/redact.rs:155-175 | a marker names exactly the digests of the hits in its run |
| `RedactMarkers.MarkerReadsBack` | leak-scan/src/redact.rs:44-55 | stripping the frame of a marker, splitting at `+` and reading each part as hexadecimal gives the first four bytes of each distinct digest of its run |
| `RedactMarkers.SeenInOrder` | leak-scan/src/redact.rs:155-175 | and they come in order of first appearance |
| `Redact.CopiesTheRest` | leak-scan/src/redact.rs:155-178 | what the splice copies is exactly the uncovered input bytes, in order |
| `Redact.OccurrenceCovered` | leak-scan/src/redact.rs:90-141 | every byte of every occurrence lies under a hit |
| `Redact.CopiedStretchClean` | leak-scan/src/redact.rs:155-178 | a stretch that no hit covers contains no occurrence |
| `Redact.CopiedStretchesClean` | leak-scan/src/redact.rs:155-178 | the stretches the splice copies, before, between and after the runs, contain no occurrence of any pattern |
| `Redact.OccurrenceMeetsMarker` | leak-scan/src/redact.rs:155-178 | an occurrence in the output can only be made with bytes of a marker |
| `LeakAgreement.FeedAll` | leak-scan/src/matcher.rs:89-133 | over any chunking the matcher reports exactly the first occurrence of the whole input |
| `LeakAgreement.DetectorsAgree` | leak-scan/src/redact.rs:72-114 | the matcher hits exactly when the redactor has hits, and ends at the least offset+len among them |
| `LeakAgreement.ChunkingIrrelevant` | leak-scan/src/matcher.rs:89-133 | two chunkings of one input return the same hit, offset and digest included, from matchers with the same group order |
| `LeakAgreement.StreamReportsSecrets` | leak-scan/src/matcher.rs:89-133 | without such collisions the stream hits exactly when a secret is in it, and what it reports is one |
| `LeakAgreement.RedactReportsSecrets` | leak-scan/src/redact.rs:72-179 | without such collisions the redactor hits exactly the windows that are secrets |
| `Graph.Shorten` | db/src/graph.rs:553-620 | every walk has a repeat-free walk between the same ends that is no longer |
| `Graph.PathRowsExact` | db/src/graph.rs:579-598 | the rows at recursion depth d are exactly the repeat-free walks with d hops |
| `Graph.AllPaths` | db/src/graph.rs:579-598 | the recursive query lists exactly the repeat-free walks within the hop limit |
| `Graph.ShortestIsListed` | db/src/graph.rs:558-575 | refusing re-entry loses nothing: any walk within the limit is matched by a listed one no longer |
| `Graph.Path` | db/src/graph.rs:553-620 | Some exactly when the target is within `max_hops` of a known source; then a connected, repeat-free node sequence whose length is the true hop distance |
| `GraphWalks.OutRowsExact` | db/src/graph.rs:660-673 | the rows of the outbound recursion are exactly the walks from the seed that re-enter no node |
| `GraphWalks.OutEdgeDepth` | db/src/graph.rs:674-679 | an edge is kept at the least length of a repeat-free walk ending in it; a loop at the seed at depth 1 |
| `GraphWalks.EdgeAtDistance` | db/src/graph.rs:660-679 | a node at distance k within the depth has an edge into it returned at depth k |
| `GraphWalks.OutDestinations` | db/src/graph.rs:622-701 | the destinations other than the seed are exactly the nodes within the depth, and the least depth of an edge into one is its hop distance |
| `GraphWalks.InIsReversedOut` | db/src/graph.rs:703-776 | the inbound walk is the outbound walk of the reversed graph, with edges kept in stored orientation |
| `WalkListing.FirstOfUnique` | db/src/graph.rs:689-690 | ORDER BY with LIMIT has one possible answer here |
| `WalkListing.OutEdgesExact` | db/src/graph.rs:674-679 | DISTINCT ON keeps each edge at its least depth, and (depth, id) leaves no tie |
| `WalkListing.InEdgesExact` | db/src/graph.rs:749-754 | the same for the inbound walk |
| `WalkListing.OutListingMeaning` | db/src/graph.rs:622-701 | a listing names no edge twice, each at its least repeat-free depth, by depth and then id; all of them when the limit does not bite, and otherwise only later ones are left out |
| `WalkListing.InListingMeaning` | db/src/graph.rs:703-776 | the same for an inbound listing, with the depths of the reversed graph |
| `WalkListing.WalkOutbound` | db/src/graph.rs:622-701 | depth 0 is empty, a negative limit is an error, otherwise the walk to depth min(maxDepth, 5), by ascending depth and then id, cut after `limit` edges so that every edge left out comes later |
| `WalkListing.WalkInbound` | db/src/graph.rs:703-776 | the same against the edges |
| `WalkListing.PartitionRestores` | db/src/graph.rs:897-916 | splitting the sorted union by direction gives back each direction's own listing, order included |
| `WalkListing.WalkEdgesAround` | db/src/graph.rs:778-917 | both directions of the combined query are the listings of the single-direction walks to depth min(maxDepth, 5), each by depth and then id, limit per direction |
| `WalkListing.AroundIsBothWalks` | db/src/graph.rs:778-917 | hence equal to what the two separate queries return, in content and order |
| `BurstSpec.PowersClosed` | core/src/audit_thinning.rs:95-110 | the number of powers of two in [16, n-1] is the difference of logarithms the closed form uses |
| `BurstSpec.BurstBounds` | core/src/audit_thinning.rs:243-279 | for any causes a burst of n rows reports between min(n,16)+p and min(n,16)+8p rows, p the powers of two in [16, n-1] |
| `BurstSpec.UniformUnsaid` | core/src/audit_thinning.rs:95-110 | with one cause throughout the unreported rows are exactly the closed form |
| `BurstSpec.SizeWithinTwice` | core/src/audit_thinning.rs:24-34 | the burst is smaller than twice the number on its last reported row |
| `BurstSpec.LastLineExists` | core/src/audit_thinning.rs:24-34 | every non-empty burst has a last reported row |
| `BurstSpec.BurstsPartition` | core/src/audit_thinning.rs:243-257 | the bursts cut the history without loss or reordering |
| `BurstSpec.EachEndedBurstSaidOnce` | core/src/audit_thinning.rs:245-250 | every ended burst with unsaid rows is announced exactly once, in order, and nothing else is |
| `BurstSpec.EndedSaidOnOwnLine` | core/src/audit_thinning.rs:176-180 | the announcing row is its burst's first and has a line of its own |
| `BurstSpec.Conservation` | core/src/audit_thinning.rs:228-231 | unreported = refused - reported = announced for ended bursts + unsaid in the open one |
| `BurstSpec.BackwardStepsIgnored` | core/src/audit_thinning.rs:238-242 | a clock that steps back gives the bursts of its running maximum |
| `Thinning.SeenDecides` | core/src/audit_thinning.rs:265-268 | the list of at most eight causes decides what the whole stretch would |
| `Thinning.RefuseCorrect` | core/src/audit_thinning.rs:243-279 | after one step the counters again stand for the whole history and the tally is the history's verdict |
| `Thinning.Thinning.UnreportedRows` | core/src/audit_thinning.rs:228-231 | the counter is rows refused minus rows reported |
| `Thinning.Thinning.Refuse` | core/src/audit_thinning.rs:243-279 | the tally of each row is the one its whole history calls for, on any clock readings and causes |
| `HandoffSpec.TrimIsLongest` | core/src/handoff.rs:197-204 | eviction keeps the longest insertion-order suffix that fits, always with the newest |
| `HandoffSpec.TrimOnce` | core/src/handoff.rs:197-204 | evicting after every put is evicting once at the end |
| `HandoffSpec.RunOk` | core/src/handoff.rs:149-262 | after any puts and purges the queue lists exactly the tracked tasks, at most 4096, and each shelf holds distinct refs within budget or one body |
| `HandoffSpec.RunKeepsNewest` | core/src/handoff.rs:182-231 | after any run a task's bodies are the longest fitting suffix of everything inserted for it since it was last untracked |
| `HandoffSpec.StepIsolated` | core/src/handoff.rs:206-229 | a step on another task leaves a task's bodies alone, or drops the oldest task whole when a new one exceeds the cap |
| `HandoffSpec.WithoutKeepsOrder` | core/src/handoff.rs:258-262 | a purge keeps the other tasks in insertion order |
| `HandoffSpec.PutRetrievable` | core/src/handoff.rs:176-231 | after a put the ref names the body if and only if it did not already name another; always, where the hash is injective |
| `HandoffSpec.PagesRestoreBody` | core/src/handoff.rs:235-243 | reading pages of any positive lengths until eof ends and concatenates to the body |
| `Handoff.EvictOldest` | core/src/handoff.rs:197-204 | the loop on queue, map and running total computes the trimmed shelf |
| `Handoff.EvictTasks` | core/src/handoff.rs:208-229 | the backstop loop leaves the newest 4096 tasks and their buckets |
| `Handoff.HandoffCache.constructor` | core/src/handoff.rs:173-175 | an empty cache, valid |
| `Handoff.HandoffCache.Put` | core/src/handoff.rs:182-231 | makes the specified step and keeps queues, maps and totals consistent |
| `Handoff.HandoffCache.GetSlice` | core/src/handoff.rs:235-243 | None exactly when nothing is stored; otherwise the bytes from `offset` on, `len` of them or as many as there are, and eof exactly when offset + len reaches the end |
| `Handoff.HandoffCache.Whole` | core/src/handoff.rs:249-255 | the whole stored body |
| `Handoff.HandoffCache.PurgeTask` | core/src/handoff.rs:258-262 | drops the task and nothing else |
| `Handoff.HandoffCache.StashIfOversized` | core/src/handoff.rs:269-282 | stashes exactly the bodies over the cap and leaves the cache alone otherwise |
| `Nul.EscapeStr` | db/src/nul.rs:77-92 | replaces each NUL in place and counts how often NUL occurs |
| `Nul.EscapeValue` | db/src/nul.rs:95-107 | the result is the escaped tree, and the count is the number of NULs in every string and key of the original |
| `Nul.CountOfString` | db/src/nul.rs:88-92 | a string counts the occurrences of NUL in it, and joining two strings adds their counts |
| `Nul.CountOfArray` | db/src/nul.rs:104-104 | an array counts each item once |
| `Nul.CountOfObject` | db/src/nul.rs:123-142 | an object counts each key and each value once |
| `Nul.EscapeItems` | db/src/nul.rs:104-104 | the same for an array, item by item |
| `Nul.EscapeObject` | db/src/nul.rs:123-142 | the same for an object, values first and then keys |
| `Nul.Rekey` | db/src/nul.rs:130-140 | keys are renamed one for one, each value stays with its key, a NUL-free key is untouched, and a glyph is added only while the shorter spelling is taken |
| `Nul.FreeSpelling` | db/src/nul.rs:136-138 | the appending loop ends at the first free spelling |
| `Nul.NoNulLeft` | db/src/nul.rs:95-142 | no string and no key of an escaped value holds a NUL |
| `Nul.IdentityIffClean` | db/src/nul.rs:163-175 | escaping is the identity exactly when `json_contains_nul` is false |
| `Nul.CountZeroIffClean` | db/src/nul.rs:163-175 | the count is zero exactly when `json_contains_nul` is false |
| `Nul.ObjectKept` | db/src/nul.rs:109-122 | an object keeps its size, and each NUL-free key its own escaped value, whatever collides |
| `Notebook.RunKeeps` | db/src/notebook.rs:109-137 | every interleaving keeps numbering, in-flight inserts and follower cursors, and with the lock one holder per task whose maximum is current |
| `Notebook.NumbersGapFree` | db/src/notebook.rs:98-137 | in every reachable state a task's committed numbers are exactly 1..n, in the order they became visible; the primary key alone ensures it |
| `Notebook.LockedInsertNeverRefused` | db/src/notebook.rs:98-137 | with the lock an append that has read its maximum can always insert: the primary key neither refuses it nor makes it wait |
| `Notebook.ReturnedNumberNamesRow` | db/src/notebook.rs:121-137 | the number `append` returns names the caller's row from its commit on |
| `Notebook.StepAppends` | db/migrations/0028_task_notebook.sql:57-62 | the visible table only grows, at its end, by at most one row a step |
| `Notebook.PollExact` | db/src/notebook.rs:139-156 | `entries(after)` answers with exactly the rows numbered after that, in the order they became visible, for any `after` |
| `Notebook.FollowerNeverSkips` | core/src/bin/kastellan-cli/session/follow.rs:204-250 | in every interleaving a follower has been given exactly the rows after the number its client started from and up to its cursor, once each, in order; nothing if that number lies beyond the table |
| `Notebook.UnlockedAppendRefused` | db/src/notebook.rs:100-107 | without the lock an append can be refused because its number was taken meanwhile |
| `Classifier.ScanExactIff` | core/src/classification_inference.rs:151-185 | the scan equals the whole-word definition on every text if and only if the phrase has no self-overlap behind a non-alphanumeric character |
| `Classifier.AlphanumericScannable` | core/src/classification_inference.rs:28-32 | a phrase of letters and digits has no such overlap |
| `Classifier.ScanMissesWord` | core/src/classification_inference.rs:167-185 | a phrase and text on which the scan misses a whole word |
| `Classifier.ContainsWord` | core/src/classification_inference.rs:167-185 | the result of the non-overlapping scan, which is the whole-word definition for every scannable phrase |
| `Classifier.SignalsExact` | core/src/classification_inference.rs:130-150 | a tag is reported exactly when a pattern with that tag is in the text |
| `Classifier.MatchCatalogue` | core/src/classification_inference.rs:134-150 | the tags of the firing patterns, each once, in catalogue order |
| `Classifier.FloorIsHighest` | core/src/classification_inference.rs:17-27 | the class is the most sensitive of the tiers that fire |
| `Classifier.InferFloor` | core/src/classification_inference.rs:107-128 | the first firing tier and all its tags; the blank fast path changes nothing |
| `Classifier.BlankIsPublic` | core/src/classification_inference.rs:108-111 | blank text fires no pattern of any tier |
| `Classifier.JoinNeverLowers` | core/src/classification_inference.rs:107-128 | joining two texts with a space never lowers the class either has alone |
| `Classifier.JoinKeepsSignals` | core/src/classification_inference.rs:134-150 | and within a tier keeps every tag either gave |
| `Classifier.JoinCanRaise` | core/src/classification_inference.rs:107-128 | joining can raise it |
| `Classifier.FloorIgnoresCase` | core/src/classification_inference.rs:130-150 | texts that differ only in the case of ASCII letters get the same floor and signals |
| `Classifier.WordCharacters` | core/src/classification_inference.rs:151-185 | words are bounded by anything but ASCII digits and letters |
| `Classifier.WholeWordIsCut` | core/src/classification_inference.rs:151-156 | a whole word stands between two pieces of text, neither of which has a letter or digit next to it |
| `Classifier.ContainsIsCut` | core/src/classification_inference.rs:141-145 | a phrase fires wherever it stands in the text |

## Left out

- Postgres wire behaviour, pools, migrations, NOTIFY delivery and row decoding: each SQL statement is modelled by its effect.
- SHA-256, the keyring and nonce randomness: hashes are arbitrary functions, and a nonce is represented by its hash, unique per ask.
- Deadlock freedom of the ask protocol as a whole: aborts are allowed anywhere and safety is proved; wait cycles without a cancel are not characterised.
- The unique indexes on `asks` and the clock are absent from the statement-level model, which then allows more interleavings: any pending ask may be found due.
- Deadlines are compared with one reading per transaction, given with its event; readings of different transactions are not related.
- AskLevels.ReachableIsRun: chooses the columns that the statement level leaves out; `AskLevels.DatedIsRun` is the statement for the columns an interleaving ran with. A crash sweep over several tasks is dated task by task.
- Waits inside `claim_one`: rows locked by others are a parameter (`SKIP LOCKED`).
- RollingMatcher.RollingMatcher.Feed: covers a stream up to its first hit; the source's return path leaves `fed` behind, so the state after a hit is outside the contract. The wrap-around of the 64-bit `fed` counter is not modelled.
- Redact.OccurrenceMeetsMarker: a pattern that contains marker text could still match where that text meets copied bytes; the source does not rescan its output.
- leak-scan/src/wire.rs: hex and JSON framing of the patterns between processes.
- Graph upserts, `neighbours` queries and the kind caches: settled by reading one statement.
- Entity kind, name and quarantine columns of walked edges: joined on by id and carried along; the walks assume the foreign keys hold.
- `BurstTally`'s Display text, and the overflow of `usize` counters.
- Handoff.HandoffCache.Whole: returns the stored bytes; parsing them back into JSON is left out, as are the placeholder's summary head and the lossy UTF-8 of `fetch`.
- Handoff.HandoffCache.StashIfOversized: returns the ref and the length; the placeholder document around them is not modelled.
- `HandoffRef::parse`: a shape check on one string.
- Nul.EscapeValue: returns the rewritten tree instead of updating it in place; the order in which NUL keys are taken is left open, and the `u64` count is unbounded.
- Notebook payloads and kinds beyond carrying them along, and deletion of old notebooks by the admin role.
- Classifier text is a sequence of characters rather than UTF-8 bytes; the phrases are ASCII, so matches and their neighbours agree.
- `core/src/audit_mirror.rs` and `core/src/audit_tail.rs`: what they promise rests on conditions outside the code.
- The scheduler, tool host, sandboxing, workspace and LLM routing: wiring, process control and floating-point scoring.
