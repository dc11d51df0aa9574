# A model of SourceHero's claim ledger, with proofs

SourceHero keeps a ledger of claims: documents are ingested as timestamped versions, sentences
become claims with a quote that can be checked, versions are reconciled, claims of different sources
are compared, and agreeing and disagreeing claims are arranged into camps. This project models the
parts of that program whose behaviour is hard to see from reading one function, and proves what they
promise over every input, every run and every interleaving. `dafny verify dfyconfig.toml` checks it.

| module | models | main results |
|---|---|---|
| `SignedGraph`, `Camps`, `CampTheorems`, `CampMeaning`, `Carried` | the signed graph of claims: breadth-first components, two-colouring, frustrated edges, following carried claims | structural balance in three equivalent forms; canonicity of components and splits; what the report says of each relation; following carried claims is graph contraction |
| `JobQueue`, `JobMeaning`, `JobRuns`, `JobTheorems` | the job table and every interleaving of workers, reaper, heartbeats and users, statement by statement | unique pending keys, no lost work, fencing of stale workers, terminality, attempt accounting; what every handler result does to its row |
| `Matching`, `MatchingTheorems` | the two-phase matching between the claims of consecutive versions | one-to-one, exact-pass counts, no blocking pair, what each outcome means, how ties are broken |
| `Reconcile`, `ReconcileTheorems`, `ReconcileMeaning`, `Renaming`, `History`, `ConflictEvents` | recomputing a document's claim lifecycle, its events and its contradictions | closed form of each claim's fate in the terms of the versions and the judge, events that tell exactly the claims' lives, disjoint chains, idempotence, history independence up to the numbers rows are given, and the exact conditions for the one kind of event that is not idempotent and for the one mark that depends on history |
| `Versions`, `VersionMeaning` | the version timeline of a document | distinct instants and contents, the first free instant of a list, when "current" is the latest |
| `Segment`, `Closing`, `Chunking`, `Packing`, `Starts`, `Tokens` | sentence spans, which terminators end a sentence, cutting of oversized sentences, packing into overlapping chunks | the spans are the only ones meeting their definition; how sentences begin, and what is kept whole; coverage end to end; the packing rule and its consequences; exactly when chunk starts increase and when a chunk is within the limit |
| `Align`, `Forms`, `Extract`, `ExtractMeaning` | quote alignment through a normalising index map, storing claims | every aligned slice is evidence for its quote; a normal form is the text's case-folded words, and a quote with the words of some slice is found; stored quotes are faithful; re-extraction stores nothing |
| `Signals`, `SignalMeaning`, `Dates`, `Relate`, `RelateMeaning` | comparison signals, dates as sets of days, judging and storing relations | the whole judgement of a pair in terms of the claims' fields; date containment is inclusion and conflict is disjointness; every signal but the numbers is symmetric, and exactly when that one is; exactly when judging is order-free |
| `Supersession` | uploads, extraction, reconciles and judgements of many documents, interleaved | every successor link leads strictly later, so supersession is acyclic |
| `Clusters` | fusing clusters tied by confident relations | one pass computes connected components |
| `Fusion` | reciprocal rank fusion and the final ordering of hits | the exact bound under which "found by both beats found by one"; dominance; list order is irrelevant |

The program's objects that are updated in place are classes (`Queue`, `Ledger`, `Document`,
`ClaimStore`, `Book`, `Board`), its loops are loops, and its pure decisions are functions. Each
method is proved equal to, or characterised by, a specification function or predicate, and the
theorems are about those.

## How the source is read

* Similarity scores, normalised texts, extracted quantities and dates, tokens and the Unicode tables are
  parameters: the theorems hold for any choice. So is the sentence-closing rule in `Segment`, `Chunking` and
  `Packing`; the program's own rule is in `Closing`.
* Time is an integer number of microseconds. Identifiers are integers. Floating-point numbers are
  reals, and integers are unbounded as in Python.
* In the job runs one SQL statement is one atomic step: a worker that fails or defers a job reads in
  one step and writes in another, with anything in between. The partial unique index on queued
  `dedupe_key` aborts the whole statement. An upload, a reconcile and one turn of the judging loop
  each run in one transaction and are one step each.
* Where the code and its own documentation disagree, the code is followed:
  * `app/ingestion/versions.py:204-205` says that the current version follows world time; after
    content that was seen before comes back (lines 146-166) the current version is the one found
    again, latest or not. `Versions.CurrentIsLatestIff` says exactly when the rule holds,
    `Versions.RevertedIsNotLatest` shows where it does not.
  * `app/ingestion/chunking.py:10` says that chunk starts increase; a group of at most `overlap` units
    that closes at the soft target is carried whole, and the next chunk starts where it did
    (`Starts.StartsIncreaseIff`). At the default limits any two sentences that together pass the target
    but not the limit do this (`Starts.TwoStartsRepeat`). Ends strictly increase.
  * The hard limit of `app/ingestion/chunking.py:138-139` is kept for the sum of the units' estimates, not for
    the chunk's own: two sentences of 160 tokens make one chunk of 321 (`Tokens.DefaultLimitIsPassed`).
    `Tokens.ChunkTokens` says exactly when a chunk is within the limit.
  * `app/ingestion/segment.py:110` says that dotted acronyms such as "U.S." are in the set of
    abbreviations; only "e.g" and "i.e" are, and "U.S. Army" is cut in two (`Closing.AcronymStaysIff`,
    `Closing.AcronymIsSplit`). Lines 7 and 86 promise that decimals are handled; one that begins with its
    point is cut after it (`Closing.PointStaysInsideIff`).
  * `app/claims/signals.py:212-218` promises that a quantity without a match on either side is a
    conflict. Line 234 asks about the second statement's quantities with the first statement's on both
    sides of the comparison, so its answer is always no: an extra quantity is seen only when it is in
    the first statement (`Signals.ConflictMeans`, `Signals.ExtraQuantityIsSeenFromOneSideOnly`). So
    which relation a pair gets can depend on which claim is judged against which
    (`Relate.OrderDecides`); `Relate.JudgingIsOrderFreeIff` says exactly when it does not.
  * `app/claims/relate.py:325-326` says that storing a pair a user has labelled gives nothing; the code
    gives the labelled row (lines 340-341), and its effects are applied.
  * `app/retrieval/hybrid.py:211-212` says that a chunk found by both legs beats one found by
    either; it does so exactly for lists of at most `k + 1` entries (`Fusion.BothAlwaysWinsIff`).
  * `app/claims/align.py:22-43` lists typographic quotes to fold, but the table is keyed by code
    point and looked up by character (line 56), so it folds nothing (`Align.TableFoldsNothing`). A
    character is folded by NFKC and case folding only.
  * `app/jobs/queue.py` limits attempts, but a reaped job goes back to the queue whatever its count,
    so attempts exceed the limit by up to the number of times a row was reaped
    (`JobTheorems.AttemptsAccounted`). `JobTheorems.OverTheLimitIff` says exactly when they do.
  * The overlap loop at `app/ingestion/chunking.py:146-149` never gives anything up: the hard limit
    is compared just before (`Packing.CarryForward`).
  * A reconcile is meant to be idempotent (app/temporal/reconcile.py:202-224), but the
    `conflict_resolved` event of another document's claim is written again each time, and of several
    such rows about one pair only the one loaded last is seen to
    (`ConflictEvents.SecondPassChangesNothingIff`, `ConflictEvents.SecondPassCanChange`).
  * The "suspect" mark on a version is never taken back, so unlike everything else a reconcile writes
    it depends on history (`History.MarksDependOnHistory`); `History.MarksAreFinalIff` says exactly
    when it does not.
  * `fail` and `defer` drop a job when a duplicate is queued (app/jobs/queue.py:223-231, 304-322), but
    read and write in two statements: the duplicate may have been claimed by then
    (`JobTheorems.DroppedAfterTheDuplicateWasClaimed`). A queued row is left exactly when there is one
    just before the write (`JobTheorems.DropLeavesPendingIff`); `JobTheorems.DroppedWhilePendingIff`
    tells this from what happened since the read. The work is not lost all the same
    (`JobTheorems.WorkIsNeverLost`).

## Model

| member | source | states |
|---|---|---|
| `Camps.Edges` | `app/claims/camps.py:83-104` | the edges are exactly the relations that are unresolved, not rejected and of an agreeing or opposing effective kind, with that sign; a user label replaces the kind, "confirmed" keeps it |
| `Camps.BuildAdjacency` | `app/claims/camps.py:112-116` | the adjacency lists hold exactly the kept edges between known claims, in both directions |
| `Camps.Discover` | `app/claims/camps.py:131-141` | the breadth-first search from a claim visits exactly its connected component, each claim once |
| `Camps.TwoColour` | `app/claims/camps.py:143-158` | the colouring is defined on exactly the component, every colour is the sign of a walk from the start, and the clashes recorded are exactly the edges it violates |
| `Camps.ComputeCamps` | `app/claims/camps.py:107-203` | the report lists every component once in order of its smallest claim, its two sides sorted, exactly its violated edges, and the isolated claims in order |
| `CampMeaning.SignMeans` | `app/claims/camps.py:27-104` | exactly the unresolved contradictions oppose and exactly the unresolved supports, duplicates and refinements agree; a user's label decides in place of the judged kind, and "confirmed" keeps it |
| `CampMeaning.RelationPlacesItsEnds` | `app/claims/camps.py:83-185` | in every report a contradiction has its ends in different camps of one component and an agreement has them in the same camp, unless the pair is reported as frustrated |
| `CampMeaning.FrustratedMeans` | `app/claims/camps.py:143-160` | the frustrated pairs are exactly the ends of contradictions within a camp and of agreements across camps |
| `CampMeaning.UnalignedMeans` | `app/claims/camps.py:124-127` | the unaligned claims are exactly those that no such relation touches |
| `CampMeaning.IdleRelationDoesNotCount` | `app/claims/camps.py:83-104` | a relation that is resolved, rejected or of another kind leaves the report as it is without it |
| `CampMeaning.TwoClaims` | `app/claims/camps.py:107-203` | two claims in contradiction are two camps, two of which one supports the other are one |
| `CampTheorems.StructuralBalance` | `app/claims/camps.py:112-203` | the report has no frustrated edge iff some colouring of all claims by +1 and -1 satisfies every kept signed edge, iff no closed walk of kept edges has a negative sign product |
| `CampTheorems.ComponentBalance` | `app/claims/camps.py:143-185` | the same equivalence for one component by itself |
| `CampTheorems.FrustratedAreTheViolatedEdges` | `app/claims/camps.py:143-160` | balanced or not, a pair is reported as frustrated iff some kept edge between the two is violated by the sides the report shows |
| `CampTheorems.FrustrationMakesNegativeCycle` | `app/claims/camps.py:153-156` | a frustrated edge proves that a closed walk with negative sign product exists |
| `CampTheorems.SameComponentIffConnected` | `app/claims/camps.py:124-141` | two claims are in the same component iff kept edges connect them |
| `CampTheorems.EveryClaimInOnePlace` | `app/claims/camps.py:124-141` | every claim is either unaligned or in exactly one component, on exactly one side of it |
| `CampTheorems.SplitIsUnique` | `app/claims/camps.py:162-175` | a consistent split of a component is the reported one or its mirror image |
| `CampTheorems.RootsAreLeast` | `app/claims/camps.py:124-132` | the components appear in order of their smallest claims, and each smallest claim is in the first camp |
| `CampTheorems.ReportsAgree` | `app/claims/camps.py:107-203` | two reports on the same signed graph have the same components, balance flags, unaligned claims and, where balanced, the same camps |
| `CampTheorems.InputOrderDoesNotMatter` | `app/claims/camps.py:107-203` | permuting the claims or the relations, repeating relations or swapping their ends changes none of that |
| `Carried.FollowCarried` | `app/claims/camps.py:325-348` | the result holds exactly the relations whose ends stand for two different active claims, re-pointed, with kind, label and resolution unchanged |
| `CampMeaning.FollowedMeans` | `app/claims/camps.py:325-348` | a relation is in the result iff some recorded one is between claims shown as its two different active ends, each its carried claim's successor or the claim itself |
| `Carried.FollowingIsContraction` | `app/claims/camps.py:325-348` | between active claims the followed relations have walks of exactly the signs that the recorded ones have when each carried claim is one with its successor |
| `JobQueue.Queue.Enqueue` | `app/jobs/queue.py:30-38` | a row with a pending key is not inserted twice; the row returned carries the key, and is queued unless the key is the empty string |
| `JobQueue.Queue.Dequeue` | `app/jobs/queue.py:41-53` | the row claimed is the first due one by priority, time and id; nothing is claimed only if nothing is due; no other row changes |
| `JobQueue.Queue.Complete` | `app/jobs/queue.py:172-194` | the row changes iff it is running and locked by this worker |
| `JobQueue.Queue.MarkCancelled` | `app/jobs/queue.py:269-290` | the row changes iff it is running and locked by this worker |
| `JobQueue.Queue.PlanFailure` | `app/jobs/queue.py:213-244` | what is decided from the table as read: with attempts left a retryable failure goes back to the queue, or is dropped when another row with its key waits there; otherwise it is dead or failed |
| `JobQueue.Queue.PlanDeferral` | `app/jobs/queue.py:303-311` | the same for a deferral: dropped when another row with its key waits, else given back |
| `JobQueue.Queue.Write` | `app/jobs/queue.py:246-266` | the guarded statement: only the row's own worker changes it, and the index may abort it; says exactly when it changed the row and when it was aborted |
| `JobQueue.Queue.Fail` | `app/jobs/queue.py:203-266` | the read followed by the write, with nobody in between |
| `JobQueue.Queue.Defer` | `app/jobs/queue.py:293-342` | the same for a deferral, which gives the attempt back; aborted exactly when two queued rows would share a key |
| `JobQueue.Queue.ReapStale` | `app/jobs/queue.py:352-373` | every stale running row is freed or cancelled as a duplicate in one statement, or none is |
| `JobQueue.Queue.Cancel` | `app/jobs/queue.py:376-394` | a queued row is cancelled at once, a running one is asked to stop, others do not change |
| `JobQueue.Queue.Retry` | `app/jobs/queue.py:397-409` | a failed or dead row goes back to the queue with no attempts, unless the index refuses |
| `JobQueue.Queue.ExecuteClaimed` | `app/jobs/worker.py:145-197` | the owned row is left as the handler's result demands and no other row is touched; a row not owned is left alone; a defer that aborts becomes a retryable failure |
| `JobQueue.ResultDecidesRow` | `app/jobs/worker.py:145-197` | the row left for each result: returning succeeds; a cancellation cancels; no handler, a refusal, or a drain's failure fails for good; any other failure is queued after the delay while attempts are left, dropped where a duplicate waits, else dead; a deferral gives the attempt back, or is dropped where a duplicate waits |
| `JobQueue.ResultTouchesOwnRow` | `app/jobs/worker.py:145-197` | nothing a worker records touches another row, and nothing at all changes if it does not own its own |
| `JobMeaning.NextMeans` | `app/jobs/queue.py:41-53` | a claimed row waits, is of a kind asked for and is due or drained; of all such rows it has the highest priority, among those the earliest time, and among those the least id |
| `JobMeaning.ClaimMeans` | `app/jobs/queue.py:43-44` | claiming marks the row with its worker and the time, and counts an attempt |
| `JobMeaning.EnqueueMeans` | `app/jobs/queue.py:28-38` | a key that waits is not inserted again; anything else is a fresh row without attempts |
| `JobMeaning.ReapMeans` | `app/jobs/queue.py:352-373` | the reaper frees exactly the running rows without a heartbeat since the cutoff, back to the queue or as duplicates of a waiting row |
| `JobMeaning.CancelMeans` | `app/jobs/queue.py:376-394` | a waiting job ends, a running one is asked to stop, any other is left alone |
| `JobMeaning.RetryMeans` | `app/jobs/queue.py:397-409` | a failed or dead job is queued as if new and due at once, unless a duplicate waits |
| `JobMeaning.BeatMeans` | `app/jobs/worker.py:219-228` | a heartbeat marks exactly the rows its worker is running |
| `JobRuns.StaysUnique` | `app/jobs/queue.py:30-38` | no step of anybody makes two queued rows share a key |
| `JobRuns.StepKeepsInv` | `app/jobs/queue.py:148-409` | every step of every actor, reads and writes apart, keeps key uniqueness, lock and status agreement, attempt accounting, who owns what, and that a planned requeue still has attempts left |
| `JobRuns.Reachable` | `app/jobs/worker.py:117-197` | the invariant holds in every state reachable from the empty table by any interleaving |
| `JobTheorems.AttemptsAccounted` | `app/jobs/queue.py:41-53` | in every reachable state attempts are claims less requeuing defers since the last enqueue or retry, at most the limit plus the number of reaps, and a row is locked iff it is running |
| `JobTheorems.OverTheLimitIff` | `app/jobs/queue.py:41-53` | after any step of anybody a row is over its limit iff it was just claimed with no attempt left, or it was over before and neither a retry nor, by one attempt, a deferral has brought it down; a claim with no attempt left happens only to a row that was reaped |
| `JobTheorems.ReapingExceedsTheLimit` | `app/jobs/queue.py:352-373` | the reaper's share is real: a run in which a job limited to one attempt is claimed twice |
| `JobTheorems.FencedWorkerChangesNothing` | `app/jobs/worker.py:145-197` | a worker whose claim was closed by somebody else changes no row, whatever it still does about that job |
| `JobTheorems.FencedUntilNextClaim` | `app/jobs/worker.py:117-197` | from when it is fenced until it claims again everything the worker does about the lost job is void, whatever the others do in between, even if the job was claimed again and even a write decided before |
| `JobTheorems.ClaimClosedByClaimantOrReaper` | `app/jobs/queue.py:172-373` | a claim ends only by its unfenced claimant or by the reaper finding it stale, which fences the claimant |
| `JobTheorems.TerminalRowsAreFinal` | `app/jobs/queue.py:26-26` | over any run succeeded and cancelled rows never change, and failed and dead ones change only by their own retry |
| `JobTheorems.WriteTakesEffectIff` | `app/jobs/queue.py:246-266` | a planned outcome leaves its owned row running exactly when the plan is to requeue it and by then another row with its key is queued |
| `JobTheorems.OutcomeTakesEffectIff` | `app/jobs/queue.py:203-342` | with nobody in between, an owned row is left running by its worker's outcome exactly when it should be requeued, has attempts left, has the empty string as key, and another such row waits |
| `JobTheorems.EmptyKeyStaysRunning` | `app/jobs/queue.py:224-242` | that case does happen: a concrete table |
| `JobTheorems.RetryTakesEffectIff` | `app/jobs/queue.py:397-409` | a retry of a failed or dead row takes effect exactly when no other queued row has its key |
| `JobTheorems.ReapTakesEffectIff` | `app/jobs/queue.py:352-373` | the reaper's statement takes effect exactly when no two stale running rows share a key that no queued row has |
| `JobTheorems.DuplicateOnlyWhilePending` | `app/jobs/queue.py:223-244` | the reaper's statement cancels a row as a duplicate only if a queued row with its key remains, and a worker plans to drop its job only from a table that has one |
| `JobTheorems.PendingGoesIff` | `app/jobs/queue.py:41-53` | a step ends the pending state of a key iff it claims its queued row or is a user cancelling it |
| `JobTheorems.PendingComesIff` | `app/jobs/queue.py:30-38` | a step makes a key pending iff it enqueues it, or retries, requeues, gives back or frees a row with it without being aborted |
| `JobTheorems.PendingAfterIff` | `app/jobs/queue.py:30-38` | so whether a key is pending after any run is told by the last of those steps |
| `JobTheorems.DropLeavesPendingIff` | `app/jobs/queue.py:246-266` | dropping a job leaves a queued row with a key iff there is one just before the write |
| `JobTheorems.DroppedWhilePendingIff` | `app/jobs/queue.py:224-266` | from the read to the write: a job dropped as a duplicate leaves a queued row with its key iff the one that was read has not been claimed or cancelled since, or another has come in its place |
| `JobTheorems.DroppedAfterTheDuplicateWasClaimed` | `app/jobs/queue.py:224-266` | a run in which a job is dropped for a duplicate that has just been claimed, and no queued row is left |
| `JobTheorems.PendingUntilClaimedOrCancelled` | `app/jobs/queue.py:30-38` | a pending key stays pending over any run in which no row with that key is claimed or cancelled by a user |
| `JobTheorems.WorkIsNeverLost` | `app/jobs/queue.py:57-125` | at every point of every run after an enqueue of a key, a row with it is queued, or one claimed since is running and not about to be dropped, or one claimed since has ended, or a user cancelled one; also where the duplicate a worker saw was claimed before it dropped its own job |
| `JobTheorems.WorkEnqueuedIsNeverLost` | `app/jobs/queue.py:57-125` | the same, starting at any enqueue in any reachable state |
| `Matching.MatchClaims` | `app/temporal/reconcile.py:82-154` | the loops compute the specified matching: exact pass, scored pass in descending score, leftovers |
| `MatchingTheorems.MatchingIsOneToOne` | `app/temporal/reconcile.py:82-154` | each previous claim is listed exactly once, no current claim is a successor twice, and successors go with carried and superseded only |
| `MatchingTheorems.ExactCount` | `app/temporal/reconcile.py:98-105` | the exact pass carries exactly min(previous, current) claims for every normalised text |
| `MatchingTheorems.MatchedMeans` | `app/temporal/reconcile.py:82-154` | a matched claim is carried iff its successor has the same text, or conflicts with nothing and is similar enough to carry; it is superseded iff the texts differ and the two conflict at the pairing threshold or are at least 0.70 and that threshold similar, share enough words and may not be carried; without a successor it is retracted, or retained where the version is suspect |
| `MatchingTheorems.ExactLeavesNoText` | `app/temporal/reconcile.py:98-105` | the exact pass leaves no previous and current claim of one text both unmatched |
| `MatchingTheorems.NoBlockingPair` | `app/temporal/reconcile.py:107-144` | for every pair that may be carried or superseded and was left by the exact pass, one side is matched at an equal or higher score |
| `MatchingTheorems.FirstFreeIsFirst` | `app/temporal/reconcile.py:99-105` | in the exact pass a claim goes to the first free one with its text |
| `MatchingTheorems.CandidateAt` | `app/temporal/reconcile.py:111-115` | pairs are formed previous claim by previous claim, in the order of the current ones |
| `MatchingTheorems.SortIsStable` | `app/temporal/reconcile.py:117-117` | and pairs of equal score are tried in that order |
| `Reconcile.Ledger.AddVersion` | `app/ingestion/versions.py:187-202` | a version is added, with whatever claims it has; they start active; nothing else changes |
| `Reconcile.Ledger.AddClaim` | `app/claims/extract.py:258-290` | a claim extracted later from a version that is there takes its place in the version's text and starts active, with its own instant of assertion; nothing else changes |
| `Reconcile.Ledger.Reconcile` | `app/temporal/reconcile.py:167-332` | the bookkeeping of every claim is the specified recomputation, the superseded and retracted events are exactly the needed facts with rows reused by key, each contradiction is reviewed, and the `conflict_resolved` rows are those of one pass over the closings that the settled claims imply |
| `Reconcile.Ledger.ReconcileConflicts` | `app/temporal/reconcile.py:335-413` | each contradiction touching the document is opened, closed or left exactly as its claims' states require and no other changes; each that does not stand has its event recorded for its first inactive side at the successor's instant, else the end of that side's validity |
| `ReconcileMeaning.ReviewMeans` | `app/temporal/reconcile.py:359-392` | a contradiction that concerns the document and is not rejected is open iff both sides are active or carried; what was closed before keeps its time |
| `ReconcileMeaning.ClosingMeans` | `app/temporal/reconcile.py:374-389` | what is recorded when it closes: the first side that is gone, as of its successor's instant, else of its end, else of its beginning |
| `ReconcileMeaning.CauseMeans` | `app/temporal/reconcile.py:401-412` | with the states of the two sides, in the order of the relation, as its cause |
| `Reconcile.ClosingsArePerPair` | `app/temporal/reconcile.py:394-395` | no two closings are about one pair, so no event of one reconcile overwrites another of the same |
| `ReconcileTheorems.SettledFate` | `app/temporal/reconcile.py:227-310` | after a reconcile a claim is what its match with the next version says, active in the last version, and untouched when superseded from outside |
| `ReconcileMeaning.LifeMeans` | `app/temporal/reconcile.py:180-310` | what is left on a claim: active in the last version; before, carried or superseded by a claim of the next version that says the same or may replace it; else retracted at that version's instant, unless that version has lost most of its text or all of five or more claims |
| `ReconcileMeaning.MarksMean` | `app/temporal/reconcile.py:233-242` | exactly such versions are marked as suspect |
| `ReconcileMeaning.EmptiedVersionRetractsNothing` | `app/temporal/reconcile.py:233-255` | a version emptied of five or more claims retracts none of them and is marked |
| `ReconcileMeaning.EventsTellLives` | `app/temporal/reconcile.py:252-312` | the superseded and retracted events are exactly those the claims' bookkeeping tells: one for each claim left superseded or retracted, about the version that did it |
| `ReconcileMeaning.VersionsAreListed` | `app/temporal/reconcile.py:68-75` | versions are walked by instant, and by row number where two share one |
| `ReconcileTheorems.FateIsWellLinked` | `app/temporal/reconcile.py:259-310` | links go to a claim of the very next version and exist exactly for carried and superseded; what ended, ended at the next version's instant |
| `ReconcileTheorems.ChainsAreDisjoint` | `app/temporal/reconcile.py:259-310` | no two claims of a document share a successor |
| `ReconcileTheorems.ExternalKept` | `app/temporal/reconcile.py:181-197` | a reconcile does not change which claims are superseded from outside the document |
| `ReconcileTheorems.SettledTwice` | `app/temporal/reconcile.py:180-332` | a second reconcile changes no claim's bookkeeping and needs the same events |
| `ReconcileTheorems.SameRowsAgain` | `app/temporal/reconcile.py:202-224` | a second reconcile keeps every event row with its id and observation time |
| `ReconcileTheorems.OpenIffBothLive` | `app/temporal/reconcile.py:359-392` | after a reconcile a contradiction that is not rejected and touches the document is open iff both sides are active or carried, and a later reconcile leaves it so |
| `ReconcileTheorems.ClosingsAgain` | `app/temporal/reconcile.py:372-412` | a second reconcile sees the same closings: same inactive sides, instants and causes |
| `ReconcileTheorems.AllOwnMeans` | `app/temporal/reconcile.py:375-378` | when the closings' inactive sides are all the document's own, read off the contradictions and the claims' states |
| `ReconcileTheorems.ReconcileTwice` | `app/temporal/reconcile.py:167-332` | run twice at any two moments, the second reconcile changes no bookkeeping, event row, contradiction or mark; it changes no `conflict_resolved` row iff the rows it loads record each closing already and are no others; where rows are selected by id, iff every closing's inactive side is the document's own and only closed pairs have several rows |
| `ConflictEvents.Load` | `app/temporal/reconcile.py:197-224` | the dictionary holds, for each pair among the document's own rows, the row about it that was selected last |
| `ConflictEvents.RecordClosing` | `app/temporal/reconcile.py:394-413` | each closing has its row, the one loaded for its pair with its observation time kept, else a new one; no other row changes |
| `ConflictEvents.Sweep` | `app/temporal/reconcile.py:320-323` | exactly the loaded rows whose pair no closing was about are deleted |
| `ConflictEvents.PassChangesNothingIff` | `app/temporal/reconcile.py:197-413` | from any rows a pass changes nothing iff every closing has a loaded row that records it already and no other row was loaded |
| `ConflictEvents.ForeignClosingIsRewritten` | `app/temporal/reconcile.py:394-412` | where a closing's inactive side is another document's claim, every pass changes rows |
| `ConflictEvents.SecondPassChangesNothingIff` | `app/temporal/reconcile.py:197-413` | from any rows, a second pass over the same closings changes no row, in whatever order rows are selected, iff every closing's inactive side belongs to the document and, where several of the document's own rows are about one pair, each records that pair's closing already |
| `ConflictEvents.SecondPassByAgeIff` | `app/temporal/reconcile.py:197-413` | if rows are selected in the order of their ids, the second pass changes no row iff every closing's inactive side belongs to the document and each pair that several of its own rows are about is closed |
| `ConflictEvents.SecondPassCanChange` | `app/temporal/reconcile.py:197-413` | both halves of the condition matter: a closing on another document's claim, and two rows about one pair that nothing closes |
| `Renaming.MatchedRenamed` | `app/temporal/reconcile.py:82-154` | where scores and texts ignore row numbers, so does the matching: renumbered claims are matched as before |
| `Renaming.FactsUpToRenamed` | `app/temporal/reconcile.py:227-310` | and so do the events a reconcile needs |
| `Renaming.FateRenamed` | `app/temporal/reconcile.py:227-310` | and so does what becomes of each claim |
| `History.HistoryIndependence` | `app/temporal/reconcile.py:167-332` | two runs that end in a reconcile over the same versions and claims, the same of them superseded by other documents' claims, up to the numbers rows were given, end with the same status, validity and successor on every claim and the same events: whatever the order in which versions arrived, claims were extracted and other documents' claims superseded them, and wherever reconciles happened in between |
| `History.ReconcileRows` | `app/temporal/reconcile.py:167-332` | the class's reconcile is the step those runs are made of |
| `History.MarksAreFinalIff` | `app/temporal/reconcile.py:233-242` | after any run that ends in a reconcile the suspect marks are those its versions and claims call for iff no earlier reconcile of the run called for another |
| `History.MarksDependOnHistory` | `app/temporal/reconcile.py:233-242` | two runs over the same versions, both ending in a reconcile, whose marks differ |
| `Versions.FreeInstant` | `app/ingestion/versions.py:178-182` | the bump loop ends, at a free instant no earlier than requested, and at the requested one if it was free |
| `VersionMeaning.InstantIsFirstFree` | `app/ingestion/versions.py:178-182` | the bump loop ends at the first free one of: the instant asked for, a microsecond, a second, a minute after it, and the same again from each further day and minute |
| `VersionMeaning.RequestMeans` | `app/ingestion/versions.py:168-177` | the instant asked for is the one given; else, for a first version, when it was published, fetched or received; else when it was published if that is after every version, or when it was fetched or received |
| `VersionMeaning.PreviousMeans` | `app/ingestion/versions.py:72-79` | no version lies between the new one and the one it is compared with, and there is none to compare with only if all are later |
| `Versions.Document.Upsert` | `app/ingestion/versions.py:140-218` | content seen before stores nothing and becomes current; new content is stored once, numbered next, at a free instant, and the unique latest version becomes current |
| `Versions.RunKeepsConsistent` | `app/ingestion/versions.py:140-218` | over any run versions are only added, numbered 1 to n, with pairwise distinct contents and instants |
| `Versions.CurrentIsLatestIff` | `app/ingestion/versions.py:146-208` | after an upsert the current version is the latest iff the content was new or that of the latest version |
| `Versions.RevertedIsNotLatest` | `app/ingestion/versions.py:146-166` | a concrete timeline in which old content comes back and the current version is not the latest |
| `Segment.ScanRaw` | `app/ingestion/segment.py:152-184` | the scanning loop cuts the text exactly at blank lines and after closing terminators with their closers |
| `Segment.SplitSentences` | `app/ingestion/segment.py:144-198` | the spans are trimmed, non-empty, disjoint and in order, hold every non-space character, and two positions share a span iff no blank line and no sentence end separates them |
| `Segment.SegmentationIsUnique` | `app/ingestion/segment.py:1-12` | only one list of spans meets that description |
| `Segment.CoveredOnce` | `app/ingestion/segment.py:186-198` | no character is in two spans |
| `Closing.ClosesSentence` | `app/ingestion/segment.py:83-136` | the branches and look-ahead loops decide the rule: a full-width terminator or a bare full stop closes; otherwise the full stop must not belong to the word before it, and the end or a space and something that may begin a sentence must follow |
| `Closing.SentencesBeginProperly` | `app/ingestion/segment.py:83-184` | neighbouring sentences are split at a blank line, after a full-width terminator or a bare full stop, or there is a space between them and the later begins with a capital, a digit, an ideograph or an opening mark |
| `Closing.HeldStopsStayInside` | `app/ingestion/segment.py:95-114` | a full stop of a decimal, an abbreviation or an initial is in one sentence with what comes next, but for a blank line |
| `Closing.PointStaysInsideIff` | `app/ingestion/segment.py:95-104` | a point before a digit is in one sentence with it iff a word character comes before the point |
| `Closing.AcronymStaysIff` | `app/ingestion/segment.py:105-114` | a dotted acronym before something that may begin a sentence is kept with it iff it is e.g. or i.e. |
| `Closing.AcronymIsSplit` | `app/ingestion/segment.py:105-114` | so "U.S. Army" is two sentences |
| `Closing.InitialStaysIff` | `app/ingestion/segment.py:108-114` | a single capital with its full stop is kept with what follows iff it stands at the beginning or after a space |
| `Closing.MarkEndsItsSentence` | `app/ingestion/segment.py:83-184` | an exclamation or question mark before the end or before space and what may begin a sentence, and a full-width mark anywhere, takes the closing quotes after it into its sentence and ends it there |
| `Closing.TitleIsKept` | `app/ingestion/segment.py:21-62` | "Dr. Smith" is one sentence |
| `Chunking.HardSplit` | `app/ingestion/chunking.py:67-92` | the loop ends for every limit; pieces are in order, hold every non-space character, and each ends at the sentence's end, at the last space within the budget, or after exactly the budget |
| `Chunking.PiecesFit` | `app/ingestion/chunking.py:52-64` | a piece of an oversized sentence estimates to at most the limit if the sentence is all CJK or has none, and to at most four times the limit plus two always |
| `Chunking.MixedPieceOverflows` | `app/ingestion/chunking.py:52-64` | a concrete mixed text whose piece exceeds the limit |
| `Chunking.EstimateMeans` | `app/ingestion/chunking.py:43-49` | a text counts one token for each ideograph or kana and one for every four other characters, rounded down |
| `Chunking.BudgetMeans` | `app/ingestion/chunking.py:52-64` | the budget is the most characters worth the limit at the sentence's own density, and at least one |
| `Chunking.MakeUnits` | `app/ingestion/chunking.py:114-122` | nothing of a sentence is lost, a sentence within the limit stays whole, an oversized one becomes its pieces, in order |
| `Packing.CarryForward` | `app/ingestion/chunking.py:129-149` | after a soft boundary exactly the last `overlap` units are carried, or the whole group; the loop that gives them up never does |
| `Packing.Pack` | `app/ingestion/chunking.py:124-156` | groups are built by the greedy rule: a group takes units while neither target nor limit would be passed, and is closed only when full |
| `Packing.ClosedIsUnique` | `app/ingestion/chunking.py:124-156` | the greedy rule determines the groups |
| `Packing.PackedIsGood` | `app/ingestion/chunking.py:124-156` | groups are contiguous runs that skip no unit, move forward, share at most `overlap` units, and stay within the limit when they have two or more units |
| `Packing.PureTextStaysWithinLimit` | `app/ingestion/chunking.py:52-156` | where every sentence is all CJK or has none, every group's units sum to at most the limit |
| `Packing.ChunkSpans` | `app/ingestion/chunking.py:95-170` | end to end: chunks are trimmed, numbered, cover every non-space character, hold each sentence within the limit whole, with starts never decreasing and ends strictly increasing |
| `Starts.SharedUnits` | `app/ingestion/chunking.py:129-149` | a group closes exactly when the next unit would pass the target or the limit; the next group repeats nothing if that was the limit, else the last `overlap` units or all there are |
| `Starts.UnitsTakenFit` | `app/ingestion/chunking.py:138-156` | and every further unit it took kept it within both |
| `Starts.NeighbouringStarts` | `app/ingestion/chunking.py:129-153` | a chunk starts after the one before it iff that one's group did not close at the soft target with at most `overlap` units; otherwise they start together |
| `Starts.StartsIncreaseIff` | `app/ingestion/chunking.py:129-153` | so chunk starts strictly increase iff no group but the last did |
| `Starts.TwoStartsRepeat` | `app/ingestion/chunking.py:95-170` | at the default limits, under the program's own closing rule, any two sentences of letters that together pass the target but not the limit become two chunks that start at the same place |
| `Starts.DefaultStartsRepeat` | `app/ingestion/chunking.py:95-170` | a concrete one: a 200-token sentence followed by a 100-token one |
| `Tokens.ChunkTokens` | `app/ingestion/chunking.py:48-49` | a chunk's own count from its length and the CJK characters of its units, and so exactly when it is within the limit |
| `Tokens.ChunkTokensNearLoad` | `app/ingestion/chunking.py:129-170` | it exceeds the sum of its units' counts by at most three quarters of a token for each unit and a quarter for each character between them, and falls short by less than one token |
| `Tokens.DefaultLimitIsPassed` | `app/ingestion/chunking.py:129-170` | at the default limit of 320 two sentences of 160 tokens become one chunk of 321 |
| `Align.IndexMap` | `app/claims/align.py:74-96` | the loop computes the normal form and its position map |
| `Align.Normalize` | `app/claims/align.py:46-71` | the loop computes the same normal form, stripped |
| `Align.TableFoldsNothing` | `app/claims/align.py:22-56` | looking a character up in the table of typographic characters gives the character back, whatever the table lists |
| `Forms.NormalFormIsWords` | `app/claims/align.py:46-96` | the normal form of a text is its case-folded words with one space between any two, and one at either end where the text has spaces there |
| `Forms.QuoteFormIsWords` | `app/claims/align.py:46-71` | the normal form of a quote is just that, without spaces at the ends |
| `Forms.SameFormIff` | `app/claims/align.py:46-71` | two texts have one form iff they have the same case-folded words |
| `Forms.CaseDoesNotMatter` | `app/claims/align.py:46-96` | texts that differ only in case have one form |
| `Forms.SpacesDoNotMatter` | `app/claims/align.py:49-51` | so do texts that differ only in the length of a run of spaces |
| `Forms.CombiningDoesNotMatter` | `app/claims/align.py:57-61` | and texts that differ only in combining characters |
| `Forms.PlainWordsCompareFolded` | `app/claims/align.py:60-70` | plain words have one form iff they fold to the same characters |
| `Forms.SameWordsAreAligned` | `app/claims/align.py:107-131` | a quote is aligned whenever some slice of the chunk has its words, whatever the fuzzy matcher says |
| `Align.PositionsAreSound` | `app/claims/align.py:74-96` | positions are parallel to the normal form, in range and non-decreasing |
| `Align.PositionsCut` | `app/claims/align.py:74-96` | a character of the normal form comes from the first `k` characters iff it lies in their normal form |
| `Align.SliceHoldsMatch` | `app/claims/align.py:125-131` | a slice that spans a match's origins has the match in its own normal form, for any folding |
| `Align.ExpansionAddsNothing` | `app/claims/align.py:99-104` | taking in combining characters does not change the slice's normal form |
| `Align.TracesAreNotCombining` | `app/claims/align.py:99-101` | the start of a mapped span is never moved |
| `Align.MatchIsEvidence` | `app/claims/align.py:125-131` | on the normalised path the returned slice's stripped normal form contains the normalised quote |
| `Align.AlignQuote` | `app/claims/align.py:107-148` | the result is the first exact occurrence, else the span the first normalised occurrence maps back to, else the fuzzy interval's span, else nothing, shifted by the chunk's offset |
| `Align.AlignedIsEvidence` | `app/claims/align.py:107-148` | an aligned span is a non-empty slice that is the quote, or whose normal form contains the quote's, or that only the fuzzy matcher vouches for |
| `Align.AlignedOnce` | `app/claims/align.py:107-148` | alignment leaves no freedom |
| `Extract.ClaimStore.ChunkOffsets` | `app/claims/align.py:110-111` | an offset found in a chunk cuts the same text out of the version |
| `Extract.ClaimStore.LocatedIsEvidence` | `app/claims/extract.py:236-242` | where a quote is located, the slice of the version is non-empty and is evidence for it |
| `ExtractMeaning.QuoteIsLocatedInItsChunk` | `app/claims/extract.py:236-242` | a quote whose words are in its chunk is located inside the chunk |
| `ExtractMeaning.QuoteIsLocatedInItsVersion` | `app/claims/extract.py:236-242` | a quote whose words are anywhere in the version is located |
| `Extract.ClaimStore.Persist` | `app/claims/extract.py:228-299` | a draft is rejected iff it can be located nowhere, stored iff located and not held before, and then its quote is read from the version at its offsets and it is asserted at the version's instant |
| `Extract.ClaimStore.VerifyQuotes` | `app/claims/extract.py:313-333` | the claims listed are exactly those whose offsets do not cut out their quote; there are none in a valid store |
| `Extract.ExtractChunk` | `app/claims/extract.py:149-158` | every draft is counted once, created counts new rows, no row is lost, and drafts already dealt with create nothing |
| `Signals.CountShared` | `app/claims/signals.py:160-165` | the removing loop counts the size of the multiset intersection |
| `Signals.TokenF1` | `app/claims/signals.py:155-170` | the result is twice what the token multisets share over their total size |
| `Signals.OverlapIsSymmetric` | `app/claims/signals.py:155-170` | the overlap does not depend on which statement is first |
| `Signals.OverlapRange` | `app/claims/signals.py:156-156` | it is between 0 and 1, and 1 exactly for the same tokens |
| `Signals.CompareNumbers` | `app/claims/signals.py:219-234` | the loop over the first statement's comparable quantities, and the question after it with the variable the loop leaves behind, give the three-valued answer |
| `SignalMeaning.ComparableMeans` | `app/claims/signals.py:180-195` | two quantities are compared iff no two given dimensions differ and they have the same unit, or no unit and head nouns that are missing or the same up to plural endings |
| `SignalMeaning.CompatibleMeans` | `app/claims/signals.py:237-244` | they are compatible iff no two given units and no two given head nouns differ, nor two dimensions of which neither is a count |
| `SignalMeaning.SingleValuesMatch` | `app/claims/signals.py:173-209` | single values match iff they differ by at most a twentieth of the larger |
| `SignalMeaning.IntervalsMatch` | `app/claims/signals.py:198-207` | where an interval is given, they match iff some value lies in both or the gap between them is at most a twentieth of its larger end |
| `SignalMeaning.ValueLies` | `app/claims/numbers.py:209-219` | an interval runs from its lower bound to its upper, a single value from itself to itself |
| `Signals.ConflictMeans` | `app/claims/signals.py:219-234` | None iff no two quantities are comparable; True iff some comparable quantity of the first statement finds no match in the second; the second statement's quantities are never asked about |
| `Signals.NumbersConflictIsSymmetricIff` | `app/claims/signals.py:219-234` | the answer is the same in both orders iff the two statements agree on whether the other leaves one of their comparable quantities without a match |
| `Signals.ExtraQuantityIsSeenFromOneSideOnly` | `app/claims/signals.py:219-234` | 10 km against 10 km and 20 km agrees, the other way round it conflicts |
| `Signals.NumbersDifferIsSymmetricIff` | `app/claims/signals.py:247-267` | the guard built on it is symmetric under the same condition |
| `Dates.ContainsIsInclusion` | `app/claims/signals.py:346-364` | for well-formed years, quarters, months and days, containment is inclusion of the days covered |
| `Dates.ConflictIsDisjointness` | `app/claims/signals.py:367-372` | and two references conflict iff no calendar day is covered by both |
| `Dates.CancelShared` | `app/claims/signals.py:412-419` | cancelling shared dates one for one leaves the two multiset differences |
| `Dates.DateConflictDetail` | `app/claims/signals.py:396-429` | the answer is True iff a date left over on one side conflicts with one left over on the other; the dates returned are the sides' own and, when True, conflict |
| `Dates.DateConflictMeans` | `app/claims/signals.py:396-429` | there is an answer iff both statements are about scheduled events and both give dates; it is True iff one gives some date more often than the other, the other some date more often than the one, and those two conflict |
| `Dates.DateConflictIsSymmetric` | `app/claims/signals.py:396-429` | the answer does not depend on which statement is first |
| `Relate.JudgePair` | `app/claims/relate.py:248-304` | the signal loops and branches compute the specified decision |
| `RelateMeaning.DefersMeans` | `app/claims/relate.py:219-245` | a pair is left to the model iff both subjects or both predicates are given and differ, or the qualifiers differ, or, without two subjects, what is counted differs or each measured slot has a word the other lacks |
| `RelateMeaning.JudgementMeans` | `app/claims/relate.py:248-304` | the whole judgement from the claims' fields, confidence included: apart, a supersession, a contradiction, a duplicate, a support, or nothing |
| `Relate.DecisionMeans` | `app/claims/relate.py:267-304` | when each relation is reached: disagreement needs a conflicting signal and overlap, and is a supersession iff the newer statement announces the change; a duplicate needs similarity and numbers that agree, whatever dates and negation say, where there is no disagreement; support needs no conflicting signal at all |
| `Relate.OnlyThreefoldContradictionsFuse` | `app/claims/relate.py:283-290` | only a contradiction on which numbers, dates and negation agree reaches the confidence at which clusters are fused (lines 518-532) |
| `Relate.JudgingIsOrderFreeIff` | `app/claims/relate.py:219-317` | swapping the claims gives the same draft with the direction reversed iff the pair is deferred, or neither or both leave a comparable quantity of the other without a match, or the pair is below both the overlap and the similarity threshold |
| `Relate.OrderDecides` | `app/claims/relate.py:219-317` | two claims of which one supports the other and is contradicted by it |
| `Relate.SupersedesIsLater` | `app/claims/relate.py:270-282` | a supersession names the strictly later claim, which carries an update cue, as the newer |
| `Relate.StoringIsOrderFree` | `app/claims/relate.py:328-359` | the stored table is the same whichever way a draft arrives |
| `Relate.OneCanonicalRow` | `app/claims/relate.py:320-359` | judging and storing a pair leaves the same canonical row in either order if the judgement is order-free, and for a pair not stored before only then |
| `Relate.EffectsAreOrderFree` | `app/claims/relate.py:590-653` | the events and status changes a relation implies do not depend on the order of the pair |
| `Relate.JudgedIsOrderFreeIff` | `app/claims/relate.py:460-478` | one whole turn of the judging loop, relation, bookkeeping and events, is the same in either order if the judgement is order-free, and for a pair not stored before only then |
| `Relate.Book.StoreRelation` | `app/claims/relate.py:320-359` | one row per pair, smaller id first; a user-labelled row is left alone |
| `RelateMeaning.StoringMeans` | `app/claims/relate.py:320-359` | storing touches the pair's own row only, and not that where the user has labelled it; it takes the draft over and keeps when the row was resolved |
| `RelateMeaning.StoredDirectionMeans` | `app/claims/relate.py:346-353` | the stored direction names the same claim as the newer as the draft did |
| `Relate.Book.ResolveConflictsFor` | `app/claims/relate.py:656-693` | exactly the open contradictions of the claim are closed, each with its event |
| `Relate.Book.ApplySupersede` | `app/claims/relate.py:633-653` | an older claim not yet superseded is closed at the newer one's instant and its conflicts with it |
| `Relate.Book.OpenConflict` | `app/claims/relate.py:603-630` | each side is told once |
| `Relate.Book.ApplySideEffects` | `app/claims/relate.py:590-600` | open contradictions are announced; a superseded claim is closed unless it is a note |
| `RelateMeaning.EffectsMean` | `app/claims/relate.py:590-653` | an unresolved contradiction tells each side not told before, at the later of the two instants; a supersession ends the older claim at the newer one's instant, tells it and closes its conflicts, unless it is a note or was superseded before; nothing else has any effect |
| `RelateMeaning.ClosingMeans` | `app/claims/relate.py:656-693` | exactly the unresolved contradictions the claim is party to are resolved, each with one event that names the other side |
| `Relate.Book.Judge` | `app/claims/relate.py:467-478` | decide, store and apply, as one turn of the loop |
| `Supersession.JudgementLinksForward` | `app/claims/relate.py:590-653` | judging an unlabelled pair changes at most one claim's bookkeeping, linking it to the strictly later one |
| `Supersession.StepKeepsInv` | `app/claims/relate.py:633-640` | uploads, extractions, reconciles and judgements each keep every claim's bookkeeping coherent: links lead strictly later and what was superseded ended when its successor was asserted |
| `Supersession.RunKeepsInv` | `app/temporal/reconcile.py:227-310` | so it is coherent in every state of every run |
| `Supersession.SupersessionIsAcyclic` | `app/claims/relate.py:633-640` | following successors never visits a claim twice, in any reachable state, across documents |
| `Clusters.Board.MergeClusters` | `app/claims/cluster.py:179-193` | exactly the members of the dropped cluster move, and it is deleted |
| `Clusters.Board.MergeAcrossClusters` | `app/claims/relate.py:535-576` | every claim ends in the smallest cluster linked to its own by confident relations of the user, exactly those clusters remain, no claim points at a deleted one, nothing else changes |
| `Clusters.LinksMean` | `app/claims/relate.py:549-566` | two clusters are linked iff a relation of the user's own, not rejected, and confident enough or judged by a model or a user, is between claims of the two |
| `Clusters.DiscountedTieDoesNotCount` | `app/claims/relate.py:549-557` | the links, and so the outcome, are the same without a relation that is rejected, another user's or neither confident nor trusted |
| `Clusters.FuseTwo` | `app/claims/relate.py:549-573` | a single relation that counts brings the two claims into the earlier of their clusters |
| `Clusters.LinkAcross` | `app/claims/relate.py:570-573` | folding the later of two linked clusters into the earlier keeps every cluster placed at or below itself, within its component, with linked ones together |
| `Clusters.MovesToSmallest` | `app/claims/relate.py:570-573` | and a placement of that kind sends every cluster to the least of its component |
| `Fusion.ReciprocalRankFusion` | `app/retrieval/hybrid.py:206-219` | exactly the listed chunks are scored, each with the sum over lists and ranks |
| `Fusion.PresentScoresItsRank` | `app/retrieval/hybrid.py:216-218` | in a duplicate-free list a chunk scores the worth of its one rank |
| `Fusion.BothBeatsOne` | `app/retrieval/hybrid.py:206-219` | with duplicate-free lists of at most `k + 1` entries a chunk in both outscores a chunk in one |
| `Fusion.BothAlwaysWinsIff` | `app/retrieval/hybrid.py:206-219` | and the bound is exact: it always holds for lists of at most `n` entries iff `n <= k + 1` |
| `Fusion.DefaultsAreWithinBound` | `app/core/config.py:108-109` | the default lists of 50 entries with `k = 60` are within it |
| `Fusion.DominanceScores` | `app/retrieval/hybrid.py:209-218` | a chunk ranked no worse in every list and better in one scores strictly higher |
| `Fusion.ListOrderDoesNotMatter` | `app/retrieval/hybrid.py:216-218` | a chunk's score does not depend on the order of the lists |
| `Fusion.HitsIgnoreListOrder` | `app/retrieval/hybrid.py:282-294` | neither do the final hits |
| `Fusion.FoundByBothComeFirst` | `app/retrieval/hybrid.py:209-212` | within the bound every hit found by both legs precedes every hit found by one |
| `Fusion.OrderHits` | `app/retrieval/hybrid.py:269-308` | the hits are the first `candidates` of the ranking of the lists the mode selects: higher scores first, and smaller ids among equals |
| `Fusion.ModeMeans` | `app/retrieval/hybrid.py:277-291` | a leg asked for alone gives all the hits, scored by their places in it, if it found anything; otherwise a hit is what either leg found, scored by its places in both |
| `Fusion.RankConstantMeans` | `app/retrieval/hybrid.py:214-214` | without a rank constant, or with zero, 60 counts |

## Left out

- JobQueue.Queue.Fail: shows the read and the write with nothing between them; what may come between is in `JobRuns`. The two SELECTs of the read are one step: nothing the first reads about the job changes while the worker owns it.
- JobQueue.Queue.Defer: the same.
- A worker whose deferral the index aborted goes on to fail the job; in `JobRuns` it may also do something else about it, so the theorems are about more runs than the program has.
- JobQueue.Queue.Enqueue: running the job at once when jobs are configured inline is not modelled.
- Calls without a worker name (inline running and the seed script's drain), which bypass the fencing guard.
- Job payloads, results, last errors, lock times and the random part of the back-off.
- Camp labels, representatives and per-camp documents and dates; the frustrated edges are a set, their sorted listing adds nothing.
- Carried.FollowCarried: follows one carried link, as the code does; a claim carried twice is reached only through its last link. How the successor table is selected from the database is not modelled.
- The origin mark of an event: the `conflict_resolved` rows of the log are those a reconcile loads (app/temporal/reconcile.py:213-215), whoever wrote them.
- Recounting a cluster's conflicts, cluster centroids and nearest-cluster assignment.
- Relations judged by a language model and user-labelled pairs in `Supersession`: their direction is unconstrained (app/claims/relate.py:340-341, 436-442), so acyclicity is about heuristic judgements of unlabelled pairs.
- Supersession.StepKeepsInv: takes the distinct instants of a document's versions from `Versions.RunKeepsConsistent`; which pairs are proposed for judging (similarity, other document, status) is not restricted, so it holds for more pairs than the program proposes.
- Supersession.SupersessionIsAcyclic: deletion of documents and claims is not a step.
- Events of one judging turn with equal kind, claims and times count once.
- JobTheorems.OutcomeTakesEffectIff: is about the statements of the queue undisturbed (`WriteTakesEffectIff` is about a write after anything); the rollback of what the handler itself wrote is not modelled.
- The fuzzy matcher: an oracle that returns an interval inside the normal form.
- Extraction of quantities, dates, tokens, negation, qualifier tags and slots from text, embeddings and similarity: data given to the model.
- Rounding of floating-point numbers: the character budget, the 0.3 ratio of suspect versions, token overlap, relative differences and fusion scores are computed in reals or integers.
- Lone surrogates in texts: a character is a Unicode scalar value.
- Which characters are capitals and digits beyond ASCII: parameters of `Closing`.
- Overflow of dates beyond the last representable instant in the bump loop.
- The database, HTTP, storage, web, feed and PDF extraction, settings, authentication, the dashboard and metrics.
