# stawi.opportunities: verified models of the crawl, ingest and matching core

The platform crawls job sources into a URL frontier, drains an ingest queue into a catalogue of
canonical opportunities, and matches opportunities with candidates under plan caps. This project
models the parts of it whose correctness spans several transactions and proves what every run
keeps. Each subsystem has the same shape: the tables are values, every transaction is a function
from tables to tables, the laws are lemmas over all runs of those transactions, and where the
source updates state in place a class does the same and is proved to compute the transaction.

| modules | subsystem |
|---|---|
| `FrontierBackoff`, `FrontierModel`, `FrontierRuns`, `FrontierProgress`, `FrontierStore` | the leased URL frontier with per-host politeness |
| `IngestQueue`, `IngestRuns`, `IngestProgress`, `IngestPipeline`, `IngestStore` | the leased ingest queue and the two-database Complete |
| `ProductStore`, `ProductRuns` | canonical identities, merge-upsert, source lineage, full-crawl reconciliation |
| `Scoring`, `MatchTable`, `MatchCaps`, `MatchBudget`, `MatchDelivery`, `MatchStore` | scoring, the guarded match upsert, gap-fill, fan-out and on-demand matches under caps |
| `Keyset`, `Listings` | cursor pagination of the match list, the application list and the force-mode backfill |
| `DefinitionsCache` | the ETag-keyed definitions loader and its change notices |
| `RecipePager` | the recipe executor's paging modes against an arbitrary fetcher |
| `AnalyticsBatcher` | the batching analytics client, by lock sections |

## How the model reads the system

- A database transaction is one atomic step. Time passes in steps of its own and never runs back.
  A crash, a late delivery and an expired lease are steps too.
- In a frontier run, the worker discipline of `pkg/frontier/postgres.go:315-322` (finish a claim at
  most once and within six minutes, against a fifteen-minute lease) is ghost worker state: the set
  of claims handed out and not yet finished or lost. What does not need the discipline
  (politeness, ceilings, attempt counts) is proved without it.
- A canonical URL's hash is taken as its identity; generated ids are fresh.
- Matching runs are serialised: no other run writes between one run's count and its write, though
  time may pass. The weekly counter is wired and readable; `ReadingKeepsCapIff` says exactly what a
  reading must be for the cap to hold.
- Equal ETags mean equal bodies. ETags and the timestamp versions an invalidation makes up are
  different constructors.
- Numbers that only rank or blend are exact reals; the backoff, whose wrap-around matters, is
  64-bit.

## Where the code and its description differ

Each of these follows the code and is proved.

- Complete and Fail do not look at the row's state, and Requeue and Delete do not touch the host's
  slot counter. `FinishKeepsSlotsIff`, `RequeueKeepsSlotsIff` and `DeleteKeepsSlotsIff` give the
  exact states in which the counters survive.
- The backoff product wraps at 64 bits. With the default base and cap the delay is still exactly the
  documented one (`DefaultBackoffIsExact`); for other bases `MachineIsExactIff` is the exact
  condition and `WrappedBackoffCanShrink` a schedule that shrinks.
- Retry updates by id alone. `RetryKeepsLedgerIff` and `RetryAddsLoadIff` say exactly when that
  breaks the ledger or the capacity ceiling.
- A repeated product write is described as idempotent. It is, up to an absent amount turning into
  zero; `RepeatedWriteIsExactIff` is the exact condition.
- The length comparison on `how_to_apply` never decides: the last non-empty text wins, shorter or not
  (`MergedRowFollowsLast`).
- With a separate product database, `DeactivateSource` writes to the crawl database and leaves the
  catalogue as it is (`IngestStore.Store.DeactivateSource`).
- A gap-fill's report is meant to be an honest account for the dashboard. It counts what it planned, so a
  hit that was already matched is reported as delivered (`RepeatedHitReportsDelivery`); the report is
  right exactly when no kept hit was already matched or met twice (`ReportIsHonestIff`).
- Reconciliation is meant to leave active what the latest full crawl saw. `LineageIsActiveIff` is what the
  code does in every run; `LastReconcileDecidesIff` says exactly when that is the rule about the last
  reconcile, and `LateReconcileOfEarlierCrawl` breaks it with reconciles out of start order.
- Deactivating a source leaves no mark that a write respects: any later write of a row that no reconcile
  retired brings the row and its opportunity back, even one seen before (`WriteRevivesIff`).
- Fan-out and gap-fill are meant to share one scale, but gap-fill never sees the salary
  (`PathsAgreeIff`).
- A match held over the weekly cap starts to count against it as soon as the candidate applies to it or
  dismisses it (`AnswerBillsIff`).
- The match and application lists are described as cursor-resumable. They order the id ascending but
  compare whole tuples with `<`, so a walk is complete exactly when each page but the last ends on a
  row that ties with no other (`ListWalkIsCompleteIff`, `TiedListWalkLosesARow`).
- A push invalidation evicts on any fetch error, not only on a missing object, so an outage drops a live
  definition (`InvalidateKeepsNamesIff`).
- An API recipe that numbers pages from below zero steps onto the zero state, which means "start",
  and never ends (`ApiCrawlEndsIff`). A multi-tenant recipe whose first page is not 1 skips boards or
  indexes out of range (`TenantsOnceEachIff`).
- Close does not wait for the posts Send has started (`CloseLeavesOnlyFullBatches`), and a Send that is
  past its unlocked check when Close drains writes to a nil map (`DrainIsSafeIff`).
- A new frontier row with priority zero gets the column default 0.5.

## Model

| member | source | states |
|---|---|---|
| `FrontierRuns.SlotAccountingIsExact` | pkg/frontier/postgres.go:282-559 | in every state of every disciplined run each host's slot counter is the number of its in-flight rows, and every unexpired claim still owns its row |
| `FrontierRuns.ReclaimSparesLiveClaims` | pkg/frontier/postgres.go:315-347 | reclaim never takes a row from a worker that may still finish it |
| `FrontierRuns.ClampNeverBites` | pkg/frontier/postgres.go:343-346 | no decrement of a disciplined run is cut short at zero, by a finish or by a reclaim |
| `FrontierRuns.ClaimsAreConserved` | pkg/frontier/postgres.go:333-559 | every claim ever made on a host is finished with success or error, reclaimed, or still holds one of its slots |
| `FrontierRuns.CountersTellOutcomes` | pkg/frontier/postgres.go:490-498 | in every run a host's success and error counters are the numbers of Complete and Fail calls that reached its rows |
| `FrontierRuns.ReclaimReopensQuietHost` | pkg/frontier/postgres.go:324-347 | a reclaim frees every slot of a host whose last request is older than a lease, so the host is open exactly when its window allows |
| `FrontierRuns.StepKeepsCapIff` | pkg/frontier/politeness.go:127-136 | a transaction takes a host over its ceiling exactly when an operator pulls the ceiling below the slots taken |
| `FrontierRuns.CapHoldsThroughout` | pkg/frontier/postgres.go:282-301 | without that, the slot counter stays within the ceiling in every run, disciplined or not |
| `FrontierRuns.InFlightNeverExceedsCap` | pkg/frontier/postgres.go:282-301 | and in a disciplined run at most concurrency_max rows of a host are in flight together |
| `FrontierRuns.ClaimsAreAWindowApart` | pkg/frontier/postgres.go:434-443 | any two claims on a host are at least its window apart, whatever happens between them |
| `FrontierRuns.ClaimTimesSpread` | pkg/frontier/postgres.go:434-443 | the n-th claim of a stretch comes at least n - 1 windows after the first |
| `FrontierRuns.ClaimRateIsBounded` | pkg/frontier/postgres.go:282-301 | a stretch lasting T holds at most T / window + 1 claims on a host |
| `FrontierRuns.FailureDelaysNextClaim` | pkg/frontier/postgres.go:528-543 | a row that fails with budget left is not claimed again before its backoff is over, unless it fails again or an operator steps in |
| `FrontierRuns.AttemptsCountClaims` | pkg/frontier/postgres.go:415-429 | a row's attempts are its claims plus its requeues out of failed |
| `FrontierRuns.ClaimsWithinBudget` | pkg/frontier/postgres.go:507-559 | with a fixed budget, claims never exceed it plus one per expired lease and per requeue |
| `FrontierProgress.AbandonedRowIsDueAgain` | pkg/frontier/postgres.go:333-347 | in every run a reclaim makes a row claimed longer ago than a lease pending, unclaimed, otherwise as it was, and due at once; no other row changes |
| `FrontierProgress.DequeueServesTheBest` | pkg/frontier/postgres.go:282-313 | a Dequeue claims only due rows of open hosts, and passes a due row over only for a better one of its host or for n hosts at least as urgent |
| `FrontierProgress.GateClosesForOneWindow` | pkg/frontier/postgres.go:434-443 | in every state a host is closed until exactly one window after its last claim, and not before the first |
| `FrontierProgress.FailDecides` | pkg/frontier/postgres.go:511-547 | failed for good at the budget, otherwise pending and due at now plus the backoff; nothing else changes |
| `FrontierProgress.FailedRowIsDueAfterBackoff` | pkg/frontier/postgres.go:528-543 | an untouched row that failed below its budget is due exactly from the end of its backoff on |
| `FrontierProgress.CompleteDecides` | pkg/frontier/postgres.go:475-489 | the row is done, with the time and no error, and nothing else changes |
| `FrontierProgress.CompletedStaysDone` | pkg/frontier/postgres.go:471-501 | a completed row stays done and is never claimed until it is failed, requeued or deleted |
| `FrontierProgress.NewUrlIsDueAtOnce` | pkg/frontier/postgres.go:153-216 | exactly when an enqueue succeeds; a new URL is due at once with its own priority, and a new host is open |
| `FrontierProgress.RequeuedIsDueAtOnce` | pkg/frontier/admin.go:132-145 | a requeued row is due at once from any state, and no other row or host changes |
| `FrontierModel.FinishKeepsSlotsIff` | pkg/frontier/postgres.go:471-501 | finishing a row keeps the counters exact exactly when it is in flight or its host has no slot taken |
| `FrontierModel.RequeueKeepsSlotsIff` | pkg/frontier/admin.go:123-147 | a requeue leaks a slot exactly on an in-flight row |
| `FrontierModel.DeleteKeepsSlotsIff` | pkg/frontier/admin.go:152-156 | so does a delete |
| `FrontierModel.ClaimAddsOne` | pkg/frontier/postgres.go:408-429 | claiming one row per host puts exactly one more row in flight on each claimed host and none elsewhere |
| `FrontierModel.ClaimKeepsSlots` | pkg/frontier/postgres.go:408-443 | a claim of rows that were not in flight keeps every host's counter equal to its in-flight rows |
| `FrontierModel.ReclaimKeepsSlots` | pkg/frontier/postgres.go:333-347 | reclaiming any number of rows per host keeps the counters exact, without the clamp |
| `FrontierModel.HostSettingsKeepSlots` | pkg/frontier/politeness.go:46-136 | the operator's host settings leave the slot accounting exact |
| `FrontierModel.EnqueueKeepsTables` | pkg/frontier/postgres.go:192-234 | an enqueue keeps one row per canonical URL and a host row for every URL |
| `FrontierModel.EnqueueMerges` | pkg/frontier/postgres.go:192-245 | re-discovery keeps identity, state, attempts and host and leaves the greater priority; a new URL starts pending and unclaimed; the rest is untouched |
| `FrontierStore.EnqueueBatchKeeps` | pkg/frontier/postgres.go:144-264 | a batch keeps both tables exact and never loses a row or resets its state |
| `FrontierStore.EnqueueBatchAnswers` | pkg/frontier/postgres.go:138-143 | a batch reports an error exactly when it answers fewer URLs than it was given; otherwise each answer is the row that holds the URL |
| `FrontierStore.FirstErrorIsFirst` | pkg/frontier/postgres.go:235-240 | the reported error is that of the first URL the batch could not take |
| `FrontierStore.Frontier.constructor` | pkg/frontier/postgres.go:58-64 | empty tables under the given backoff policy |
| `FrontierStore.Frontier.Enqueue` | pkg/frontier/postgres.go:144-264 | the loop computes the batch transaction: tables, results and first error |
| `FrontierStore.Frontier.PickUrl` | pkg/frontier/postgres.go:303-313 | the due row of a host that no other due row beats on priority, then age |
| `FrontierStore.Frontier.LockHosts` | pkg/frontier/postgres.go:282-301 | at most n eligible hosts, each once, most urgent first, and no host left out is more urgent |
| `FrontierStore.Frontier.ReclaimStale` | pkg/frontier/postgres.go:333-347 | rows claimed longer ago than a lease are pending and unclaimed, every other row is as it was, and slots are given back per host |
| `FrontierStore.Frontier.ClaimDue` | pkg/frontier/postgres.go:371-461 | claims one best due row on each of the most urgent open hosts and stamps rows and hosts |
| `FrontierStore.Frontier.Dequeue` | pkg/frontier/postgres.go:354-466 | reclaim, then claim; an abandoned row is pending again or claimed afresh; claimed rows carry the worker and one more attempt; nothing for n at or below zero |
| `FrontierStore.Frontier.Complete` | pkg/frontier/postgres.go:471-501 | marks the row done and frees a slot, whatever the row's state; reports a missing row |
| `FrontierStore.Frontier.Fail` | pkg/frontier/postgres.go:507-559 | failed for good at the budget, otherwise pending after the backoff; frees a slot |
| `FrontierStore.Frontier.Requeue` | pkg/frontier/admin.go:123-147 | back to pending at once; attempts grow only out of failed |
| `FrontierStore.Frontier.Delete` | pkg/frontier/admin.go:152-156 | the row is gone, every other row and every host stays as it was, slot counters included |
| `FrontierStore.Frontier.UpsertHost` | pkg/frontier/politeness.go:46-71 | adds a missing host with positive settings and never changes a known one |
| `FrontierStore.Frontier.SetWindow` | pkg/frontier/politeness.go:117-125 | refuses negative windows; a new window does not change when the host is next open |
| `FrontierStore.Frontier.SetConcurrency` | pkg/frontier/politeness.go:128-136 | refuses non-positive ceilings; slots already taken stay taken, even above the new one |
| `FrontierBackoff.ExactBackoffGrows` | pkg/frontier/postgres.go:531-539 | the documented schedule is positive, capped and non-decreasing |
| `FrontierBackoff.MachineBackoffBounded` | pkg/frontier/postgres.go:535-539 | whatever the wrap does, the delay lies in (0, MaxBackoff] |
| `FrontierBackoff.MachineIsExactIff` | pkg/frontier/postgres.go:535-539 | the machine's delay is the documented one exactly when the product does not wrap to a short positive delay |
| `FrontierBackoff.DefaultBackoffIsExact` | pkg/frontier/postgres.go:58-64 | with the default base and cap it is the documented one for every number of attempts |
| `FrontierBackoff.WrappedBackoffCanShrink` | pkg/frontier/postgres.go:535-539 | with another base the 42nd delay is shorter than the 41st |
| `IngestRuns.LedgerTellsTheOutcome` | pkg/jobqueue/store.go:64-105 | with timely retries, one row and one enqueued event per key, no two rows with one variant; a row is processed (or dead) exactly when its ledger holds exactly one such event |
| `IngestRuns.CapacityHolds` | pkg/jobqueue/store.go:73-91 | with every producer at ceiling m and timely retries, unfinished work never exceeds m |
| `IngestRuns.ClaimAttemptsIncrease` | pkg/jobqueue/store.go:127-153 | later claims of an item carry greater attempt numbers |
| `IngestRuns.ClaimsAreALeaseApart` | pkg/jobqueue/store.go:127-153 | two claims of an item with no retry between them are more than a lease apart |
| `IngestRuns.RetryDelaysNextClaim` | pkg/jobqueue/store.go:365-387 | a retried item is not claimed again before its delay is over, and a dead one never, unless retried again |
| `IngestRuns.ClaimsWithinBudget` | pkg/jobqueue/store.go:365-387 | when the holder retries, an item's attempt is its number of claims, at most the budget plus one per expired lease |
| `IngestQueue.RetryKeepsLedgerIff` | pkg/jobqueue/store.go:365-387 | a retry keeps ledger and rows in step exactly when the row is unfinished |
| `IngestQueue.RetryAddsLoadIff` | pkg/jobqueue/store.go:365-387 | a retry adds load exactly when it revives a finished row that still has budget |
| `IngestQueue.RetryDelayGrows` | pkg/jobqueue/store.go:373-373 | the retry delay starts at a second or more, doubles with the attempt and stops at 900 s |
| `IngestQueue.AckKeepsLedger` | pkg/jobqueue/store.go:321-330 | an acknowledgement, successful or refused, keeps ledger and rows in step |
| `IngestQueue.EnqueueKeepsLedger` | pkg/jobqueue/store.go:92-103 | so does an enqueue, new or repeated |
| `IngestProgress.NewJobIsFreeAtOnce` | pkg/jobqueue/store.go:64-105 | exactly when an enqueue succeeds; a new item can be claimed at once with no attempt spent |
| `IngestProgress.ClaimServesTheEarliest` | pkg/jobqueue/store.go:127-141 | a claim takes only free items and leaves a free one only when it took its limit of earlier ones |
| `IngestProgress.AbandonedItemIsFreeAfterLease` | pkg/jobqueue/store.go:136-148 | an item whose worker died can be claimed again exactly once its lease is over |
| `IngestProgress.RetriedItemIsFreeAfterDelay` | pkg/jobqueue/store.go:366-387 | an item retried below its budget can be claimed again exactly once min(2^attempt, 900) s are over; at the budget never |
| `IngestProgress.AckFinishes` | pkg/jobqueue/store.go:321-330 | an acknowledgement succeeds exactly on a processing item, which is then never free; a refused one changes nothing |
| `IngestPipeline.ProcessedIsStored` | pkg/jobqueue/store.go:332-340 | with a crash possible between the commits, a processed row always has its opportunity and lineage in the product store and the canonical id on its ledger |
| `IngestPipeline.CompleteIsCommitThenAck` | pkg/jobqueue/store.go:332-349 | a two-database Complete is a product commit then an acknowledgement or a crash; uncut it equals the single transaction, which is all or nothing |
| `IngestStore.Store.constructor` | pkg/jobqueue/store.go:25-53 | empty queue and catalogue, with the ceiling and the number of databases |
| `IngestStore.Store.Enqueue` | pkg/jobqueue/store.go:64-105 | validation, repeated key, ceiling and duplicate row in the source's order; otherwise one row and one event |
| `IngestStore.Store.CountActive` | pkg/jobqueue/store.go:84-87 | the number of rows pending, in retry or processing |
| `IngestStore.Store.Pick` | pkg/jobqueue/store.go:135-141 | the first `limit` claimable rows by availability, then age; no row left out comes before one taken |
| `IngestStore.Store.Claim` | pkg/jobqueue/store.go:127-153 | leases exactly those rows and hands out their new attempt numbers |
| `IngestStore.Store.ProductWrite` | pkg/jobqueue/store.go:256-319 | identity, serving row, lineage and visibility in one write, or the reason it fails |
| `IngestStore.Store.AckCrawl` | pkg/jobqueue/store.go:321-330 | acknowledges exactly a processing row, with its event |
| `IngestStore.Store.Complete` | pkg/jobqueue/store.go:234-349 | both databases: the product write survives a lost acknowledgement; one database: it is undone |
| `IngestStore.Store.Retry` | pkg/jobqueue/store.go:365-387 | dead at the budget, otherwise retry after its delay, with the matching event and at most 2000 characters of the error |
| `IngestStore.Store.RecordRejected` | pkg/jobqueue/store.go:109-118 | an audit event that leaves rows, keys and the ledger's agreement with the rows as they were |
| `IngestStore.Store.ReconcileSource` | pkg/jobqueue/store.go:353-363 | retires the source's rows not seen since the crawl started and keeps hidden exact, leaving the queue alone |
| `IngestStore.Store.DeactivateSource` | pkg/jobqueue/store.go:173-182 | with one database no row of the source stays active and hidden stays exact; with two the catalogue stays as it is |
| `ProductStore.HiddenMeansNoActiveSource` | pkg/jobqueue/store.go:171-182 | after any sequence of writes, reconciles and deactivations an opportunity is hidden exactly when it has no active lineage, and carries a reason exactly when hidden |
| `ProductStore.WriteKeepsHidden` | pkg/jobqueue/store.go:311-317 | a write recomputes its own opportunity's flag and disturbs no other |
| `ProductStore.RetiringKeepsHidden` | pkg/jobqueue/store.go:359-361 | hiding only what the source touches is enough, however many rows are retired |
| `ProductStore.WriteAcceptedIff` | pkg/jobqueue/store.go:235-261 | exactly which records a write accepts |
| `ProductStore.HidingGivesReason` | pkg/jobqueue/store.go:359-361 | retiring gives its reason to exactly the opportunities the source had a part in and that have no active source left |
| `ProductStore.ContentHashIff` | pkg/jobqueue/store.go:297-297 | the hash is the record's content_hash attribute exactly when that is a non-empty string |
| `ProductRuns.LineageIsActiveIff` | pkg/jobqueue/store.go:298-310 | after any sequence of writes, reconciles and deactivations a lineage row is active exactly when it was seen at or after the start of the last reconcile that retired it and written since its source was last deactivated |
| `ProductRuns.LastReconcileDecidesIff` | pkg/jobqueue/store.go:353-363 | the rule about the last reconcile fails exactly for a row seen after that start but before the last retiring one, or deactivated since its last write |
| `ProductRuns.ReconciledLineageIsActiveIffSeen` | pkg/jobqueue/store.go:351-363 | in particular it holds with reconciles in crawl order and no deactivation, however late the writes |
| `ProductRuns.WriteRevivesIff` | pkg/jobqueue/store.go:306-307 | a write brings a deactivated row back exactly when no reconcile retired the row after that sighting |
| `ProductRuns.LateReconcileOfEarlierCrawl` | pkg/jobqueue/store.go:353-363 | seen at 5, reconciled for the crawl of 10 and then for that of 3: inactive, with the history that shows why |
| `ProductRuns.LineageCreditsLatestCrawl` | pkg/jobqueue/store.go:304-305 | through any writes, reconciles and deactivations a lineage row credits the crawl run of its latest sighting |
| `ProductRuns.LineageFollowsWrites` | pkg/jobqueue/store.go:298-303 | a lineage row keeps its first sighting and shows the link of its last write and the last hash given |
| `ProductRuns.WriteRecordsLineage` | pkg/jobqueue/store.go:298-308 | an accepted write leaves exactly one row, under its canonical id, source and external id |
| `ProductRuns.RepeatedWriteChangesNothing` | pkg/jobqueue/store.go:229-233 | repeating a product write changes nothing, an absent amount read as zero |
| `ProductRuns.RepeatedWriteIsExactIff` | pkg/jobqueue/store.go:263-290 | it is an exact no-op exactly when the opportunity existed or neither amount is zero |
| `ProductRuns.IdentityIsStable` | pkg/jobqueue/store.go:257-261 | a hard key keeps its first canonical id and no two keys share one |
| `ProductRuns.WritesOfAKeyAgree` | pkg/jobqueue/store.go:257-261 | every successful write of a hard key lands on the canonical id of the first |
| `ProductRuns.MergedRowHoldsMaxima` | pkg/jobqueue/store.go:271-290 | the row holds the latest sighting, greatest amounts and longest description among the records merged |
| `ProductRuns.MaximaIgnoreOrder` | pkg/jobqueue/store.go:271-290 | the same records in any order, among any other transactions, leave the same maxima |
| `ProductRuns.StepNeverLowers` | pkg/jobqueue/store.go:285-289 | no transaction ever lowers any of them |
| `ProductRuns.MergedRowFollowsLast` | pkg/jobqueue/store.go:263-290 | kind, source and first sighting are the first record's; title, link and remote flag the last one's; every optional fact, every attribute key and the instructions are as last given |
| `ProductRuns.InstructionsNeverLeak` | pkg/jobqueue/store.go:245-253 | no serving row ever exposes application instructions among its public attributes |
| `Scoring.PathsAgree` | pkg/matching/knn.go:39-51 | for a pair the fan-out query admits, fan-out and gap-fill give the same total: the blend of the cosine less staleness, clamped at zero |
| `Scoring.PathsAgreeIff` | pkg/matching/gapfill.go:160-186 | with any non-negative weights the two totals agree exactly when the salary fits, carries no weight, or gap-fill's total is zero; fan-out's is never the greater |
| `Scoring.DefaultPathsAgreeIff` | pkg/matching/fanout.go:131-161 | with the default weights exactly when the salary fits, at any distance and age |
| `Scoring.DefaultScoreIsMonotone` | pkg/matching/score.go:102-119 | with default weights both totals lie in [0, 1] and never rise with distance or age |
| `Scoring.DefaultScoreInUnit` | pkg/matching/score.go:102-119 | with every feature present and a similarity in [0, 1], the score lies in [0, 1] |
| `Scoring.PenaltyGrowsWithAge` | pkg/matching/score.go:188-206 | the staleness penalty never falls as time passes |
| `Scoring.OverlapInUnit` | pkg/matching/score.go:145-160 | the skills term lies in [0, 1] |
| `Scoring.OverlapEnds` | pkg/matching/score.go:145-160 | the skills term is full exactly when a side is missing or every skill is named, and nothing exactly when none is |
| `Scoring.GeoMissesIff` | pkg/matching/score.go:162-174 | exactly when a country misses |
| `Scoring.SalaryMissesIff` | pkg/matching/score.go:176-186 | exactly when a salary misses; missing data is neutral |
| `Scoring.FoldsCaseIff` | pkg/matching/score.go:150-156 | labels are equal exactly letter by letter up to case |
| `Scoring.CosineIsLinear` | pkg/matching/score.go:35-47 | similarity is the straight line from 1 at distance 0 to 0 at 2, held at the ends |
| `Scoring.PenaltyIsLinear` | pkg/matching/score.go:188-206 | no penalty for seven days, full from sixty, a straight line between without a jump |
| `Scoring.TermsCarryTheirWeights` | pkg/matching/score.go:110-117 | each term alone scores exactly its own weight |
| `Scoring.ComputeSkillsOverlap` | pkg/matching/score.go:145-160 | the loop computes the share of the candidate's skills the opportunity names |
| `Scoring.ComputeGeoMatch` | pkg/matching/score.go:164-174 | 1 exactly when a side is missing or some accepted country fits or is remote |
| `MatchTable.RowHistory` | pkg/matching/store.go:35-117 | a pair keeps its first match id; its score is frozen once it is not new; dismissed is never left, and applied only by a dismissal |
| `MatchTable.ScoreIsGreatestWhileNew` | pkg/matching/store.go:35-51 | a pair's score is the greatest one offered while it was new |
| `MatchTable.StepSucceeds` | pkg/matching/store.go:53-82 | an upsert never changes a status |
| `MatchTable.AnswersStick` | pkg/matching/store.go:101-117 | after a dismissal the row is dismissed; after an application applied, unless dismissed before |
| `MatchTable.OfferMerges` | pkg/matching/store.go:35-51 | what an upsert leaves, column by column and key by key, for an absent pair, a lower new one, and any other |
| `MatchCaps.WeeklyCapHolds` | pkg/matching/gapfill.go:204-291 | over serialised fan-outs, gap-fills, on-demand batches and answers to delivered matches, what is billed in the trailing week never exceeds the cap |
| `MatchCaps.PersistKeepsCap` | apps/matching/service/http/v1/persist_matches.go:50-109 | an on-demand batch given the true weekly count stays within the cap |
| `MatchCaps.PersistCharges` | apps/matching/service/http/v1/persist_matches.go:63-85 | the batch charges exactly the room it spends, and nothing on a full day |
| `MatchCaps.PersistSpendsOnBest` | apps/matching/service/http/v1/persist_matches.go:59-85 | the room goes to the best hits: once one is held over, so are all that score lower |
| `MatchDelivery.PersistSpendsItsBudget` | apps/matching/service/http/v1/persist_matches.go:63-85 | it delivers as many named hits as the week has room for, none on a spent day, all without caps |
| `MatchDelivery.PersistPlansEveryHit` | apps/matching/service/http/v1/persist_matches.go:73-101 | every hit with an id becomes a match at its own score, and nothing else does |
| `MatchCaps.FanOutKeepsCap` | pkg/matching/fanout.go:183-247 | a fan-out that meets a candidate any number of times stays within that candidate's cap |
| `MatchCaps.FanPlanCharges` | pkg/matching/fanout.go:187-216 | the cached weekly count is what was read plus what the plan charges, and never passes the cap by planning |
| `MatchCaps.GapKeepsTheBest` | pkg/matching/gapfill.go:204-236 | what a gap-fill cuts scores no higher than anything it keeps, and it keeps no more than the week allows |
| `MatchCaps.ReasonsHold` | pkg/matching/gapfill.go:322-335 | a delivery is claimed exactly when one was planned; every other reason is the true cause |
| `MatchBudget.BatchRaisesExactly` | pkg/matching/store.go:35-51 | a batch raises the weekly count by exactly its non-overflow matches whose pair is neither in the table nor earlier in the batch |
| `MatchBudget.ReportIsHonestIff` | pkg/matching/gapfill.go:293-351 | the reported number and usage never understate the charge, and are the true ones exactly when no hit kept as new was already matched or met twice |
| `MatchBudget.RepeatedHitReportsDelivery` | pkg/matching/gapfill.go:293-299 | a hit already matched at least as well is reported as delivered while the table stays as it was |
| `MatchDelivery.GapFillDeliversOnlyHits` | pkg/matching/gapfill.go:160-189 | every pair a gap-fill brings in is one of its hits at that hit's total, which clears the threshold |
| `MatchDelivery.UncappedGapFillDeliversAll` | pkg/matching/gapfill.go:184-188 | with the caps off every hit that clears the threshold is in the table afterwards |
| `MatchDelivery.BelowThresholdIsTrue` | pkg/matching/gapfill.go:328-334 | below_threshold is reported only when no hit clears it |
| `MatchDelivery.GapFillSpendsItsBudgets` | pkg/matching/gapfill.go:208-286 | it keeps as many of the best hits as the week has room for and delivers as many of those as the day has |
| `MatchDelivery.FanOutDeliversOnlyHits` | pkg/matching/fanout.go:131-163 | every pair a fan-out brings in is one of its hits at that hit's total, which clears the candidate's threshold |
| `MatchDelivery.FanOutReachesAll` | pkg/matching/fanout.go:159-163 | every hit that clears its candidate's threshold is in the table afterwards, delivered or held over |
| `MatchDelivery.FanOutHoldsOverIff` | pkg/matching/fanout.go:188-216 | a hit is held over exactly when its candidate's day is spent, or the week read plus what was planned before |
| `MatchDelivery.MatchesCarryTheRun` | pkg/matching/gapfill.go:265-286 | every match carries its run, its id, and the reranker's score exactly when there is one |
| `MatchCaps.BatchCharges` | pkg/matching/store.go:180-206 | a batch raises the weekly count by at most its non-overflow matches of the candidate |
| `MatchBudget.ReadingKeepsCapIff` | pkg/matching/gapfill.go:208-236 | with the daily cap off, a reading keeps the cap for every ranking of hits exactly when it is no lower than the true count; a reading of zero can overrun it by everything already delivered |
| `MatchBudget.GapFillCanAdd` | pkg/matching/gapfill.go:215-236 | some ranking of hits uses all the room a gap-fill reads |
| `MatchCaps.AnswerBillsIff` | pkg/matching/store.go:399-412 | an application or a dismissal raises the weekly count exactly when the match was held over this week |
| `MatchStore.SortByScore` | pkg/matching/gapfill.go:205-205 | a descending permutation of the hits |
| `MatchStore.Store.UpsertMatch` | pkg/matching/store.go:60-82 | inserts, raises a new row's score, or leaves the row; says whether it inserted |
| `MatchStore.Store.UpsertMatches` | pkg/matching/store.go:180-206 | the batch, one upsert after another |
| `MatchStore.Store.RecordApplied` | pkg/matching/store.go:104-117 | applied unless dismissed, keeping the first time, the score and every other row |
| `MatchStore.Store.RecordDismissed` | apps/matching/service/http/me/v1/handlers.go:263-282 | dismissed from any state, keeping the score and every other row |
| `MatchStore.Store.PersistMatches` | apps/matching/service/http/v1/persist_matches.go:50-109 | ranks on-demand hits and writes the plan the caps allow |
| `MatchStore.Store.CountNonOverflowThisWeek` | pkg/matching/store.go:399-412 | the number of the candidate's non-overflow rows of the trailing week |
| `MatchStore.Store.GapFill` | pkg/matching/gapfill.go:102-352 | scores, ranks, cuts to the caps, writes and reports; what is new in the table is a hit over the threshold, and without caps none is missing |
| `MatchStore.Store.FanOut` | pkg/matching/fanout.go:79-301 | scores, counts once per candidate, plans, writes and counts the overflow; exactly the hits over their thresholds reach the table |
| `Keyset.FollowIsCompleteIff` | pkg/matching/store.go:229-303 | following a cursor shows a listing once and in order exactly when every page boundary resumes where it stopped |
| `Listings.CutIsGoodIff` | pkg/matching/store.go:249-268 | a list boundary resumes correctly exactly when its row shares the leading keys with no other |
| `Listings.ListWalkIsCompleteIff` | pkg/matching/store.go:226-303 | a list walk is complete exactly when every page but the last ends on such a row |
| `Listings.UntiedListWalkIsComplete` | pkg/matching/store.go:226-303 | it is complete at every page size when no two rows tie |
| `Listings.TiedListWalkLosesARow` | pkg/matching/store.go:255-268 | three tied rows at page size two: the first is shown twice, the last never |
| `Listings.MatchPagesShowAll` | pkg/matching/store.go:229-303 | untied matches of the shown statuses are all shown, each once |
| `Listings.ApplicationPagesShowAll` | pkg/applications/store.go:155-231 | so are applications created at distinct times |
| `Listings.ListPage` | pkg/matching/store.go:230-302 | one page with its cursor, under the default and maximum limits |
| `Listings.DescendingCutIsGood` | cmd/embed-backfill/main.go:294-305 | with every key descending each cursor resumes where it stopped, ties or not |
| `Listings.Backfill` | cmd/embed-backfill/main.go:143-201 | the force-mode loop visits every visible opportunity exactly once and in order, at any batch size, and ends without failures exactly when all of them were embedded |
| `Listings.CatalogueIdsAreNamed` | cmd/embed-backfill/main.go:282-293 | the catalogue never holds the empty id the loop takes for "no cursor yet" |
| `DefinitionsCache.CompleteRefreshMirrorsStore` | pkg/definitions/r2.go:110-171 | after a refresh whose listing and fetches succeed the cache holds exactly the listed names with current tags and bodies, and other types as before |
| `DefinitionsCache.RefreshAfterAnyRunMirrors` | pkg/definitions/r2.go:101-171 | after any run of refreshes and invalidations, whatever failed in it, one complete refresh mirrors the store |
| `DefinitionsCache.InvalidateKeepsNamesIff` | pkg/definitions/r2.go:237-245 | an invalidation keeps the cached names right exactly when it finds what is in the store and fails for what is not |
| `DefinitionsCache.ListedIsNeverDropped` | pkg/definitions/r2.go:133-171 | however a refresh goes wrong, a definition that is still listed is never dropped |
| `DefinitionsCache.NoticesRebuildCache` | pkg/definitions/r2.go:223-260 | over every serialised run, whatever fails, replaying the notices from empty gives the cache's name-to-version map |
| `DefinitionsCache.CacheServesLastObtained` | pkg/definitions/r2.go:110-260 | over every run the cache serves, name by name, exactly the body and version the last action to store that name obtained |
| `DefinitionsCache.Loader.constructor` | pkg/definitions/r2.go:55-64 | an empty cache that has announced nothing |
| `DefinitionsCache.Loader.RefreshType` | pkg/definitions/r2.go:110-171 | stores what changed and could be fetched; evicts what is no longer listed only after a whole listing |
| `DefinitionsCache.Loader.Invalidate` | pkg/definitions/r2.go:237-260 | serves the fetched body under a new stamp, or evicts on any error, announced either way; no other name changes |
| `DefinitionsCache.Loader.Refresh` | pkg/definitions/r2.go:101-108 | succeeds exactly when every listing does; then, with every fetch good, all four types mirror the store |
| `RecipePager.ApiCounts` | pkg/recipe/executor.go:486-563 | after n calls that did not finish, the next page is first + n and within max_pages |
| `RecipePager.ApiCrawlEnds` | pkg/recipe/executor.go:486-563 | an API crawl is over after at most max(1, max_pages - first + 1) calls, whatever the fetcher does |
| `RecipePager.NegativeFirstPageLoops` | pkg/recipe/executor.go:488-492 | numbering from below zero never ends when no page is empty |
| `RecipePager.ApiCrawlEndsIff` | pkg/recipe/executor.go:540-563 | an API crawl ends for every fetcher exactly when it does not number pages from below zero |
| `RecipePager.CallEndsIff` | pkg/recipe/executor.go:526-562 | a call ends the crawl exactly for a failure, an empty page, a missing or repeated cursor, or the bound; with an error exactly for a failure other than a rate limit past page 1 |
| `RecipePager.CrawlApi` | pkg/recipe/executor.go:265-277 | driving Page from the zero state stops at the first call with a reason to end; numbered pages that are never empty are followed to the bound |
| `RecipePager.HtmlCrawlEnds` | pkg/recipe/executor.go:565-609 | an HTML crawl is over after at most max_pages listings, even if every page links on |
| `RecipePager.HtmlFollowsEveryLink` | pkg/recipe/executor.go:587-608 | it goes on exactly while every listing leads on and max_pages is not reached, to the page the last one led to |
| `RecipePager.TenantsOnceEachIff` | pkg/recipe/executor.go:494-514 | every board once and in order exactly when the first page is 1 or unset; an earlier one indexes out of range |
| `RecipePager.KeptIsUnique` | pkg/recipe/executor.go:332-341 | the kept URLs are exactly the accepted ones, without duplicates |
| `RecipePager.FlattenHoldsAll` | pkg/recipe/executor.go:342-356 | every URL of the root and of the nested sitemaps is considered, and nothing else |
| `RecipePager.Executor.LoadSitemapUrls` | pkg/recipe/executor.go:327-361 | first occurrences of accepted URLs across nested sitemaps, in order; none at all is an error |
| `RecipePager.Executor.SitemapPaged` | pkg/recipe/executor.go:288-321 | one batch of 25, the list loaded once; done at the end or at max_pages |
| `RecipePager.Executor.CrawlSitemap` | pkg/recipe/executor.go:279-321 | the batches concatenate to a duplicate-free prefix of the URLs, cut only by max_pages |
| `AnalyticsBatcher.NothingLostOrDuplicated` | pkg/analytics/client.go:115-202 | in every interleaving a stream's accepted events are its taken batches in order, then its bucket; no batch is handed over twice or over-long; buckets stay below the limit |
| `AnalyticsBatcher.CloseLeavesOnlyFullBatches` | pkg/analytics/client.go:147-168 | after Close nothing is buffered and only full batches started by Send can still await their post |
| `AnalyticsBatcher.DrainIsSafeIff` | pkg/analytics/client.go:116-137 | the drained client can never crash exactly when no Send was past its unlocked check |
| `AnalyticsBatcher.BatchesTakeOnce` | pkg/analytics/client.go:192-201 | visiting the streams in any order takes each bucket exactly once |
| `AnalyticsBatcher.Client.constructor` | pkg/analytics/client.go:74-109 | no buckets, and a batch limit of 100 unless a positive one is set |
| `AnalyticsBatcher.Client.Send` | pkg/analytics/client.go:115-143 | an open client adds exactly the caller's fields, stamped if they had no time, to their stream alone; otherwise nothing changes |
| `AnalyticsBatcher.Client.FlushAll` | pkg/analytics/client.go:186-202 | takes every non-empty bucket once and leaves none, before or after Close has set stopped |
| `AnalyticsBatcher.Client.Close` | pkg/analytics/client.go:147-168 | drains once, after a last tick or without one, leaves nothing buffered, and does nothing when called again |

## Left out

- Concurrency inside PostgreSQL: SKIP LOCKED, advisory locks, isolation levels, and clock skew between Go and the database; a transaction is atomic and there is one clock.
- URL parsing and canonicalisation, hashing, HTML, JSONPath, regular expressions and sitemap discovery; their results are inputs, and whether a URL is accepted is an arbitrary predicate.
- URL metadata, OnEnqueue and the rolling of the 24-hour host counters.
- Queue payloads, crawl job ids, event ids and event details other than a processed event's canonical id, and the columns processed_at and updated_at.
- Slugs, embeddings, and attributes that are absent altogether (JSON null); attributes are a map.
- Repairing a source after `DeactivateSource` with a separate product store; the crawl database's own copy of the catalogue is not modelled.
- Floating-point rounding, cosineSimilarity and its square root; a cosine is an input, and letters fold case in ASCII only.
- The nearest-neighbour queries' ordering and limits, the reverse query's filter, reranker calls, match events and run events, and failures of the upsert transaction.
- FanOut: the number of matches written and the list of new ones it returns, which count the plan as gap-fill's report does.
- PersistMatches: titles, companies, slugs and links copied into a match's metadata.
- Guarantees for the daily cap: its counter lives in another table, and fan-out reads it once per hit.
- MachineBackoff: the conversion of a power beyond the 64-bit range is the amd64 one.
- Backfill: the listing is fixed during the walk, and whether a row embeds is an arbitrary predicate; retries after a failed fetch, cancellation and the default mode are not modelled.
- ListPage: the cursor is the row itself, without its encoding or a malformed one.
- Subscribe, Get and List of the definitions loader, and object names whose extension matters.
- CrawlApi: page bodies and extraction are not modelled, only what decides the next page; the same holds for HTML listings and tenants.
- Delivery of a batch over HTTP, which the client treats as best effort.
- Billing, notifications, files, LLM and embedding clients, rules, registries, freshness, CV scoring and the user interfaces: nothing there spans several operations in the way the parts above do.
