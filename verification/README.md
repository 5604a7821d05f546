# HFusionHub: verified models of the Python and TypeScript cores

HFusionHub is a retrieval-augmented chat platform. Its Python service indexes documents, runs
agents and streams their answers, its web client reads those streams, and a Spark warehouse and a
few scripts account for what was used. This project models the parts of that code which are
protocols, transformations or arithmetic, and proves what they promise for every input, every run
and every interleaving. `dafny verify dfyconfig.toml` checks everything.

Each file is one module and models one part of the repository:

| file | what it models |
|---|---|
| `IndexReplacement.dfy` | replacing a document's stored chunks when any step can fail; the callback's retry loop |
| `Embedding.dfy`, `EmbeddingStatus.dfy` | concurrent embedding batches under a semaphore, with the status writes around them |
| `TaskStatus.dfy` | the bounded task-status store, its progress values and the remaining time |
| `Aggregation.dfy`, `Warehouse.dfy` | group-by and roll-up over any lawful aggregate; the two query plans for cost and the cost shares |
| `Backfill.dfy` | the left joins that find a call's tenant, and quality rules R2 and R5 |
| `Ledger.dfy` | the synthetic usage ledger, and quality rules R3, R4 and R6 |
| `NetworkPolicy.dfy`, `ContainerRun.dfy` | the network-policy compiler of the plugin runner, and one container run |
| `Metrics.dfy` | nDCG in its two implementations, citation metrics and the citation window |
| `JsonText.dfy`, `Sse.dfy`, `Text.dfy` | JSON printing, the event-stream printer and the incremental parser |
| `FeatureFlags.dfy`, `FlagCache.dfy` | flag evaluation, and the flag cache with its two locks and background refresher |
| `SendGuard.dfy`, `ActiveRequests.dfy`, `ChatStream.dfy`, `BidStream.dfy` | the single-flight guard, the request registry, the chat stream with its output guard, the bid-writing stream |
| `SqlSplit.dfy`, `SqlCuts.dfy`, `SchemaDrift.dfy` | the top-level comma splitter, where it cuts, and the migration replay compared with the H2 schema |
| `Common.dfy` | shared vocabulary |

Code that computes values is modelled by functions. Code that works step by step is modelled by
methods and classes that are proved against such functions, and code that runs concurrently by a
state machine whose runs are sequences of actions, each enabled when it is taken.

## What does not hold as one might expect

Where a property is false of the code, the code is kept, a lemma gives the input, and another gives
the exact condition under which the property does hold.

* **Replacement after a failed or partial fetch.** `get_document_chunks` returning an error counts as
  "nothing stored", and the cluster store answers with at most 16384 rows
  (python-ai/app/core/vectorstore/milvus_cluster.py:444). The run then completes over chunks of the
  old version. The stored ids are exactly the new ones if and only if the fetch reported every id
  that the new version does not reuse (`CompletedIsExactIff`, `FailedFetchLeavesLeftovers`,
  `PartialListingLeavesLeftovers`).
* **FAILED is not final.** `asyncio.gather` does not cancel the siblings of a failed batch. One that
  finishes later turns the status back to PROCESSING exactly when it completes a multiple of five
  chunks (`SiblingOverwritesFailureIff`, `FailureCanBeOverwritten`). Some run of a document loses
  its failure in this way if and only if some of its batches, but not all, have a multiple of five
  chunks together (`FailureCanBeLostIff`).
* **`blocked_domains` beside an allow-list has no effect.** Whatever is on both lists is reached,
  unless it is blocked globally (`WhenBlockedIsDropped`, `AllowedAndBlockedIsReached`,
  `PrivateAddressIsReached`).
* **The flag's blacklist can be lifted.** The docstring says that a blacklist match always denies,
  but a rule's own blacklist replaces the flag's (`FlagBlacklistHoldsIff`, `FlagBlacklistCanBeLifted`).
* **Rollout buckets do not depend on the flag.** Cached entries do not store `flagKey`, so that the
  hash sees only the user (`AlwaysCoherent`, `CachedRolloutsAreNested`).
* **The cache can go back to an older snapshot.** It does if and only if a fetch is overtaken: one
  that read the clock later is installed while it is in flight, and it is installed afterwards
  (`CacheAgesIffOvertaken`). Two forced refreshes suffice (`ForcedRefreshCanAge`), and without
  forced refreshes it cannot happen (`FreshWithoutForce`).
* **The last line of a stream can be lost.** `consumeSseJsonStream` never calls `flush`
  (`LastLineLost`, `LastLineCanBeLost`).
* **Finished streams stay registered.** The output guard stops reading at `[DONE]`, so that the
  generator's statements behind that `yield`, which remove the `active_requests` entry, never run
  (`GuardSkipsCleanUp`, `GuardedStaysListed`, `ListedAreRunningIff`, `FinishedButListed`).
* **The guard also judges retracted text.** Content sent before a `content_reset` still counts
  (`GuardJudgesAnswerIff`, `RetractedTextIsJudged`, `RetractedTextExample`).
* **A vision fallback swallows events that carry content.** All events of a kind arrive if and only
  if there is no vision fallback or none of them has content (`EventsArriveIff`). A swallowed
  `run_error` leaves the stream without any terminal event (`VisionSwallowsEvent`).
* **A vision fallback joins what was taken back with what replaced it**, because its buffer is not
  cleared at a `content_reset` (`VisionReaderIff`, `VisionJoinsRetracted`, `VisionJoinsExample`).
* **nDCG over repeated ids can exceed 1.** It is at most 1 for every discount if and only if the list
  has no more hits than the ideal ranking (`NdcgAtMostOneIff`, `RepeatedItemExceedsOne`). This is a
  matter of `_ndcg` alone: its callers remove repetitions first
  (python-ai/scripts/eval_offline.py:131-140, python-ai/scripts/eval_runtime.py:217-221).
* **The two implementations of nDCG differ** when expected ids repeat (`ImplementationsAgree`).
* **Mirroring a migration can introduce drift**: by a table rename whose source only the H2 schema
  has, and, against a baseline, by a statement that makes a table or column appear under a name
  with gaps that the baseline does not list (`MirrorKeepsContainment`, `RenameCanLoseContainment`,
  `MirrorKeepsBaselineIff`, `BaselineCanBeLeft`).
* **Repeated ids copy calls in the backfill**, so that rule R5 can miss a lost row. The row counts
  are right for all calls if and only if no run id and no id of the task map is repeated
  (`CountIsExactIff`, `RepeatedIdHidesLoss`).
* **Two seed runs in a row share request ids** exactly when the first has more than 40 usage rows
  (`RerunSharesIdsIff`). The unique key of `usage_event` refuses the second ledger exactly when such
  a pair also has one tenant and one meter (`BothStorableIff`). The quality rules, which look at the
  rows alone, would pass both (`GeneratedLedgersPass`).
* **Rule R6 can fail on a generated ledger that is partitioned by day**, as the streaming ingestion
  does (bigdata/flink-jobs/cdc_ingest.sql): every day passes if and only if no COMMIT falls on a
  later day than its RESERVE (`EveryDayPassesIff`).

## Model

| member | source | states |
|---|---|---|
| `IndexReplacement.AlwaysAVersion` | python-ai/app/api/vectorization.py:493-508 | in every reachable state, whatever fails, the store is the old version untouched, or holds the complete new version and otherwise only leftovers of the old one |
| `IndexReplacement.OldIntactUntilStaged` | python-ai/app/api/vectorization.py:490-498 | until the insert has succeeded nothing of the old version changes |
| `IndexReplacement.EndsByOutcomes` | python-ai/app/api/vectorization.py:493-549 | from the outcomes alone: a run has failed exactly when its insert failed, something raised or two deletes failed, has completed exactly when the callback was made, and waits for a delete exactly while something stale is left and none has succeeded |
| `IndexReplacement.OneFailureIsRetried` | python-ai/app/api/vectorization.py:504-509 | whenever something is stale, a run in which one delete fails and the next succeeds is possible and completes |
| `IndexReplacement.VersionIs` | python-ai/app/api/vectorization.py:498 | the new version has the ids of the chunks, each with the content of the last chunk that carries it |
| `IndexReplacement.KnownAre` | python-ai/app/api/vectorization.py:493-497 | the run knows the non-empty ids among the first 100000 of the listing, and none after a failed fetch |
| `IndexReplacement.CompletedIsExactIff` | python-ai/app/api/vectorization.py:495-508 | when COMPLETED is written the store is exactly the new version if and only if the fetch reported every stored id that the new version does not reuse |
| `IndexReplacement.CompletedIsExact` | python-ai/app/api/vectorization.py:493-549 | in particular when the fetch lists all stored chunks, which are at most 100000 and all have ids |
| `IndexReplacement.FailedFetchLeavesLeftovers` | python-ai/app/api/vectorization.py:495-496 | a failed fetch can lead to a completed task with an old chunk still stored |
| `IndexReplacement.PartialListingLeavesLeftovers` | python-ai/app/api/vectorization.py:495-508 | a listing that leaves a stored id out can lead to a completed task with that chunk still stored |
| `IndexReplacement.RetryConverges` | python-ai/app/api/vectorization.py:493-508 | from whatever a run left behind, a further run whose calls succeed and whose fetch lists everything ends with exactly the new version |
| `IndexReplacement.NotifyCallback` | python-ai/app/api/vectorization.py:822-846 | the callback is acknowledged exactly when an attempt is answered below 400 and all before it were retryable; at most three attempts, none after a 4xx |
| `Embedding.BatchesFlatten` | python-ai/app/api/vectorization.py:438 | the batches concatenated are the chunks, for every batch size |
| `Embedding.ConcurrencyAndCounter` | python-ai/app/api/vectorization.py:444-471 | over every completion order the free permits and the batches inside the embed call add up to the configured concurrency, and `done_counter` is the total size of the finished batches |
| `Embedding.PairedInOrder` | python-ai/app/api/vectorization.py:436-482 | whenever the vectors are collected, chunk i of the document is paired with the vector of chunk i |
| `Embedding.CollectChunks` | python-ai/app/api/vectorization.py:477-482 | the flattening loops pair the concatenated batches with the concatenated vectors, position by position |
| `Embedding.NeverStuck` | python-ai/app/api/vectorization.py:444-482 | with a concurrency of at least 1 some step is enabled until the vectors are collected or the failure is handled; once all batches have ended it is exactly one of these two |
| `Embedding.RunsEnd` | python-ai/app/api/vectorization.py:444-482 | no run has more than two steps a batch and one for the outcome |
| `Embedding.SiblingOverwritesFailureIff` | python-ai/app/api/vectorization.py:460-476 | after a recorded failure a finishing sibling writes PROCESSING exactly when it completes a multiple of five chunks, and the progress stays at 100 |
| `Embedding.FailureCanBeLostIff` | python-ai/app/api/vectorization.py:436-476 | from the batch sizes alone: some run ends with PROCESSING after a recorded failure if and only if some batches, but not all, have a multiple of five chunks together |
| `Embedding.FailureCanBeOverwritten` | python-ai/app/api/vectorization.py:438-476 | six chunks in batches of five, of which the second raises, turn a FAILED status into PROCESSING |
| `Embedding.EmbeddingProgress` | python-ai/app/api/vectorization.py:460-476 | over every run the progress never falls, and it exceeds 95 exactly when a failure was recorded |
| `EmbeddingStatus.PercentIs` | python-ai/app/api/vectorization.py:463-465 | the reported percentage is 40 and the embedded share of 45 more, rounded down, and 85 exactly at the end |
| `EmbeddingStatus.ReturnRecords` | python-ai/app/api/vectorization.py:460-471 | a finished batch writes nothing, unless the finished chunks are a multiple of five or all; then PROCESSING with that percentage or what was recorded before, if that is more |
| `EmbeddingStatus.OutcomeRecords` | python-ai/app/api/vectorization.py:452-489 | a wrong number of vectors counts as an exception; the failure is recorded as FAILED at 100, the collection as at least 90 |
| `TaskStatus.TaskStatusStore.TaskStatusPut` | python-ai/app/api/vectorization.py:64-68 | the entry becomes the newest in place of an earlier one of that id, and the oldest beyond 10000 go |
| `TaskStatus.TaskStatusStore.EvictOldest` | python-ai/app/api/vectorization.py:67-68 | the loop leaves the newest 10000 entries, in order |
| `TaskStatus.TaskStatusStore.Pop` | python-ai/app/api/vectorization.py:753 | exactly the document's entry disappears |
| `TaskStatus.StoreIsNewest` | python-ai/app/api/vectorization.py:60-68 | after any sequence of writes and deletions there are at most 10000 entries, one an id, and they are the most recently written ids in order |
| `TaskStatus.EvictsOnlyAboveBound` | python-ai/app/api/vectorization.py:67-68 | without deletions the store holds all written ids, or 10000 of them if there are more |
| `TaskStatus.NothingEvictedWithinBound` | python-ai/app/api/vectorization.py:67-68 | with deletions, too, it holds exactly the written ids while there have never been more than 10000 at once |
| `TaskStatus.RecencySorted` | python-ai/app/api/vectorization.py:64-68 | that order is the order of the last writes |
| `TaskStatus.EvictedWereOldest` | python-ai/app/api/vectorization.py:67-68 | an evicted entry was written before every retained one |
| `TaskStatus.ProgressNeverDecreases` | python-ai/app/api/vectorization.py:311-331 | while an entry is retained no write to any document lowers its progress or changes its start time and estimate |
| `TaskStatus.HundredNeedsTerminal` | python-ai/app/api/vectorization.py:213-228 | after a reset, progress 100 is reached only through a COMPLETED or FAILED write |
| `TaskStatus.WriteRecords` | python-ai/app/api/vectorization.py:308-331 | a terminal write records 100; any other raises the progress to what it reports, neither beyond 95 nor below what it was; start time and estimate stay |
| `TaskStatus.ResetRecords` | python-ai/app/api/vectorization.py:213-228 | a new request starts the entry at PROCESSING and 3 with its estimate |
| `TaskStatus.EstimateProcessingSeconds` | python-ai/app/api/vectorization.py:71-92 | the initial estimate is the base time and 25 seconds a megabyte, rounded down, between 15 and 900 |
| `TaskStatus.RemainingIs` | python-ai/app/api/vectorization.py:132-146 | nothing remains exactly for a completed or failed entry or one without start time or estimate; otherwise what is left of the estimate, to the second, and at least one second |
| `TaskStatus.EstimateFollowsPace` | python-ai/app/api/vectorization.py:95-129 | the estimate is the initial one up to progress 5 or one second, then the observed pace or three quarters of the initial estimate if that is more, to the second, between 15 and 900 |
| `Aggregation.GroupTotal` | bigdata/spark-jobs/dws_aggregate.py:32-44 | grouping keeps the total over any set of keys |
| `Aggregation.RollUpTotal` | bigdata/spark-jobs/ads_build.py:38-45 | grouping by a coarser key keeps the total of the fine rows below it |
| `Aggregation.RegroupRowsAre` | bigdata/spark-jobs/ads_build.py:38-45 | a table grouped twice has exactly one row for each coarse key that occurs, holding the total of the original rows below it |
| `Aggregation.GroupRowsAre` | bigdata/spark-jobs/dws_aggregate.py:83-94 | a grouped table has exactly one row for each key that occurs, holding that key's total |
| `Aggregation.GroupOrderIrrelevant` | bigdata/spark-jobs/dws_aggregate.py:32-44 | the grouped rows do not depend on the order of the input rows |
| `Warehouse.PlansAgree` | bigdata/spark-jobs/ads_build.py:38-71 | for every day the per-tenant rows and the platform row have the same calls, tokens and cost, which are those of the day's calls, although the plans differ |
| `Warehouse.PlatformRowIsTenantSum` | bigdata/spark-jobs/ads_build.py:60-71 | a day has one platform row if it has calls and none otherwise, and it is the sum of the day's tenant rows |
| `Warehouse.TenantRowIs` | bigdata/spark-jobs/ads_build.py:38-45 | a tenant has a row for a day exactly if it has calls on that day, with their number and the sums of their tokens and costs, null where all are null |
| `Warehouse.PlatformRowIs` | bigdata/spark-jobs/ads_build.py:60-71 | the platform row of a day likewise, over all calls of the day |
| `Warehouse.FineRowsAre` | bigdata/spark-jobs/dws_aggregate.py:32-44 | the rows by tenant, model and day and those by model and day likewise |
| `Warehouse.SharesSumToOne` | bigdata/spark-jobs/ads_build.py:75-90 | in each partition with a non-zero cost the unrounded shares sum to 1, and rounding to six decimals moves the sum by at most 5e-7 a row |
| `Warehouse.RoundingError` | bigdata/spark-jobs/ads_build.py:80-88 | the bound on the rounding error for any costs and any non-zero sum |
| `Warehouse.ShareInUnit` | bigdata/spark-jobs/ads_build.py:76-90 | with non-negative costs a row of a partition has a share exactly if it has a cost and the partition's costs do not sum to zero, and the share lies between 0 and 1 |
| `Backfill.JoinKeepsRowsIff` | bigdata/spark-jobs/dwd_transform.py:53-56 | a left join never loses a left row, and repeats none exactly when no left row has two matches |
| `Backfill.BackfillIsExact` | bigdata/spark-jobs/dwd_transform.py:34-66 | with no repeated run id and no repeated id in the task map the output is exactly the source rows with a resolvable tenant, in order |
| `Backfill.UniqueIdsSuffice` | bigdata/spark-jobs/dwd_transform.py:36-51 | unique run, task and user ids are enough for that |
| `Backfill.OutputRowsAre` | bigdata/spark-jobs/dwd_transform.py:36-66 | with unique ids a call is in the output under exactly the tenant it belongs to: the one on the record; without it, that of the run the record names; without either, that of the user of the task it names |
| `Backfill.CountIsExactIff` | bigdata/spark-jobs/dwd_transform.py:53-66 | the output has as many rows as there are calls with a tenant, for all calls, if and only if no run id and no id of the task map is repeated |
| `Backfill.RuleR2Passes` | bigdata/spark-jobs/quality_check.py:103-111 | R2 finds no null tenant in `dwd_llm_call`, whatever the sources |
| `Backfill.RuleR5Measures` | bigdata/spark-jobs/quality_check.py:134-142 | with unique ids R5's ratio is the fraction of calls without a tenant, between 0 and 1 |
| `Backfill.RepeatedIdHidesLoss` | bigdata/spark-jobs/quality_check.py:134-142 | with a repeated run id the ratio can be 0 although a row was lost |
| `Ledger.RequestIdInjective` | bigdata/scripts/seed_generator.py:243 | different numbers give different request ids, also beyond nine digits |
| `Ledger.GenerateUsageEvents` | bigdata/scripts/seed_generator.py:238-255 | the loop emits the pairs of events of the draws, in order |
| `Ledger.PairShape` | bigdata/scripts/seed_generator.py:240-255 | a draw's pair is one RESERVE and, under the same tenant, request and meter, one positive COMMIT of at most the reserved amount for a coin below 0.94 and else one RELEASE of all of it; the meter is that of the request type |
| `Ledger.AmountsAre` | bigdata/scripts/seed_generator.py:220-245 | the committed amount is the drawn prompt, at least 64, and its share of completion, and the reserve the drawn multiple of it, both rounded down |
| `Ledger.LedgerShape` | bigdata/scripts/seed_generator.py:238-255 | the events of a request in the whole ledger are exactly the pair of its draw |
| `Ledger.GeneratedLedgersPass` | bigdata/spark-jobs/quality_check.py:113-156 | the rows of every generated ledger, and of any two taken together, pass R3, R4 and R6 in one partition, for all draws and scales |
| `Ledger.EveryDayPassesIff` | bigdata/spark-jobs/quality_check.py:144-156 | partitioned by day, the rows of every day pass R6 if and only if no draw commits on a later day than it reserves |
| `Ledger.LedgerStorable` | bigdata/scripts/seed_generator.py:238-258 | every generated ledger has unique (tenant, meter, request, operation) keys, as its table demands |
| `Ledger.BothStorableIff` | bigdata/scripts/seed_generator.py:238-258 | two ledgers can be stored one after the other exactly when no draw of the one has the number, tenant and meter of a draw of the other |
| `Ledger.RerunSharesIdsIff` | bigdata/scripts/seed_generator.py:243 | two runs in a row share a request id exactly when the first had more than 40 usage rows |
| `Ledger.Weighted` | bigdata/scripts/seed_generator.py:55-61 | the choice is the first item whose cumulated weight reaches the draw, else the last |
| `Ledger.PickTenant` | bigdata/scripts/seed_generator.py:84-85 | the tenant is one of 1 to 8, and the draws 0.30, 0.52, 0.68, 0.80, 0.89, 0.95 and 0.98 are exactly where it changes |
| `NetworkPolicy.CompileList` | docker/plugin-runner/app.py:244-247 | the loop appends the list's commands, or fails exactly when an entry is invalid |
| `NetworkPolicy.BuildNetworkCommands` | docker/plugin-runner/app.py:221-258 | the command list is the compiled configuration that the first-match theorem is about |
| `NetworkPolicy.CompileFailsIff` | docker/plugin-runner/app.py:192-206 | a list is rejected exactly when some entry has no valid target |
| `NetworkPolicy.CompiledList` | docker/plugin-runner/app.py:209-218 | a compiled list has one jump only and matches exactly the packets that an entry covers |
| `NetworkPolicy.FirstMatchIsPolicy` | docker/plugin-runner/app.py:221-258 | for every configuration, resolver and packet the first-match verdict of the generated rules is the policy: global blocks win; with an allow-list loopback, DNS and allowed targets pass and nothing else; without one only blocked targets are dropped |
| `NetworkPolicy.DroppedIff` | docker/plugin-runner/app.py:221-258 | in numbers: a packet is dropped exactly when it goes to one of the three metadata targets, or there is an allow-list and it goes neither to 127.0.0.0 to 127.255.255.255 nor to TCP or UDP port 53 nor to an allowed target, or there is none and it goes to a blocked target |
| `NetworkPolicy.CoversIs` | docker/plugin-runner/app.py:209-218 | an entry covers the addresses that share the leading bits of its network, or those that its name resolves to |
| `NetworkPolicy.NetworkIsPrefix` | docker/plugin-runner/app.py:209-217 | for every prefix length an address is in a network exactly when their first bits agree |
| `NetworkPolicy.TargetIs` | docker/plugin-runner/app.py:189-206 | the target of an entry, with or without `*.`: blanks around it do not count, a network is kept, a name loses its final dots and is lower-cased, and anything else is refused |
| `NetworkPolicy.CompilesIff` | docker/plugin-runner/app.py:221-258 | a configuration compiles exactly when the three metadata targets and every entry of both lists have a target |
| `NetworkPolicy.OrderAndRepetitionIrrelevant` | docker/plugin-runner/app.py:231-256 | reordering or repeating entries inside a list changes neither acceptance nor any verdict |
| `NetworkPolicy.WhenBlockedIsDropped` | docker/plugin-runner/app.py:236-256 | when a packet to a blocked target is dropped, exactly |
| `NetworkPolicy.AllowedAndBlockedIsReached` | docker/plugin-runner/app.py:236-256 | in every configuration that compiles, a packet covered by an entry of both lists and by no global block is accepted |
| `NetworkPolicy.PrivateAddressIsReached` | docker/plugin-runner/app.py:48-52 | for instance a private address on both lists, beside the three global blocks as Python reads them |
| `ContainerRun.QualifiedDigest` | docker/plugin-runner/app.py:152-167 | a canonical digest is its own normal form, bare or behind a repository name |
| `ContainerRun.DigestOf` | docker/plugin-runner/app.py:152-167 | of any reference, blanks and everything up to the last `@` are dropped; the rest counts, in lower case, exactly if it is `sha256:` and 64 hexadecimal digits of any case |
| `ContainerRun.ResolveDigest` | docker/plugin-runner/app.py:325-332 | the image's digest is the first well-formed repository digest, else the image id, and canonical; none exactly when neither is well-formed |
| `ContainerRun.AwaitContainer` | docker/plugin-runner/app.py:402-437 | the loop leaves at the first poll that sees an end or is later than the start and the timeout together, and polls only a bounded number of times |
| `ContainerRun.AdmitRequest` | docker/plugin-runner/app.py:306-398 | which requests are refused or fail before a container exists, and what the caller is told |
| `ContainerRun.FinishRun` | docker/plugin-runner/app.py:439-575 | the answer and the calls for a container that was seen to end: it is waited for before its output is read, killed only if that fails, and removed last |
| `ContainerRun.ExecuteTool` | docker/plugin-runner/app.py:295-575 | every answer exactly when the world gives rise to it, with the deadline written out: a timeout if and only if all polls up to the first one past start and timeout found the container running; nothing is started for a refused request, what was started is removed last, and only overdue or unwaitable containers are killed |
| `ContainerRun.VerdictMeans` | docker/plugin-runner/app.py:295-575 | the condition for each of the answers, which exclude each other |
| `Metrics.DcgAtMostIdeal` | python-ai/scripts/eval_baseline.py:331-337 | DCG is at most the ideal DCG of as many hits, with equality exactly when the hits come first |
| `Metrics.NdcgBounds` | python-ai/scripts/eval_baseline.py:326-338 | nDCG of distinct ids cut at k lies in [0, 1] and is 1 exactly when as many leading ranks are relevant as there are expected ids, or k if that is less |
| `Metrics.SingleHitNdcg` | python-ai/scripts/eval_baseline.py:326-338 | one expected id found at rank r gives the discount of that rank over that of the first, and 0 if it is not found |
| `Metrics.MovingRelevantUpRaisesNdcg` | python-ai/scripts/eval_baseline.py:331-338 | moving a relevant id up past an irrelevant one raises nDCG |
| `Metrics.NdcgAtMostOneIff` | python-ai/scripts/eval_baseline.py:326-338 | for every list, nDCG is at most 1 for all discounts if and only if the list has no more hits than the ideal ranking |
| `Metrics.RepeatedItemExceedsOne` | python-ai/scripts/eval_baseline.py:331-338 | a repeated id lifts nDCG above 1 for every discount |
| `Metrics.ImplementationsAgree` | python-ai/scripts/eval_reranker.py:49-58 | the 0-based implementation has the baseline's value exactly when nothing relevant was found or repeated expected ids do not lengthen its ideal; always for distinct expected ids |
| `Metrics.F1IsOverlap` | python-ai/scripts/eval_baseline.py:341-379 | citation F1 is twice the overlap over the two sizes, and 1 exactly when the citations are the expected ids without repetition |
| `Metrics.CitationExtremes` | python-ai/scripts/eval_baseline.py:341-379 | when precision, recall and F1 are absent, and when precision and recall are 0 or 1 |
| `Metrics.CitedArePrefix` | python-ai/scripts/eval_baseline.py:382-403 | on a sorted ranking the citations are its first min(k, window) ids |
| `Metrics.CitedIff` | python-ai/scripts/eval_baseline.py:382-403 | an entry of a sorted ranking is cited exactly if it is among the first k, its score is at least the ratio of the top score, and that is positive |
| `Metrics.WideningKeepsRecall` | python-ai/scripts/eval_baseline.py:353-403 | a lower ratio or higher cap only adds citations at the end and never lowers recall |
| `JsonText.UnescapeEscape` | python-ai/app/api/chat.py:209 | reading back an escaped string gives the string, for all characters |
| `JsonText.ObjectOnOneLine` | python-ai/app/api/chat.py:197-209 | a printed JSON object is one line in braces: control characters are escaped (section 7 of RFC 8259) |
| `JsonText.ReceiveObjects` | python-ai/app/api/chat.py:183-209 | any JSON objects printed as frames and closed by `[DONE]`, cut into arbitrary chunks and pushed through the parser one by one, arrive as exactly their texts and one `done` |
| `JsonText.ReceiveTexts` | python-ai/app/api/chat.py:209 | the texts an agent streams are read unchanged at the other end of the chunked stream |
| `Sse.SseDataParser.Push` | hfusionhub-frontend/src/utils/sse.ts:8-13 | the events are those of the lines the chunk closes, and the open line stays in the buffer |
| `Sse.SseDataParser.Flush` | hfusionhub-frontend/src/utils/sse.ts:15-20 | the open line is parsed and the buffer emptied |
| `Sse.ParseChunks` | hfusionhub-frontend/src/utils/sse.ts:5-31 | parsing is independent of chunking: pushing any chunks and flushing gives the events of the concatenated text |
| `Sse.PrintParses` | hfusionhub-frontend/src/utils/sse.ts:22-30 | printed one-line objects and the `[DONE]` frame parse back to exactly these payloads and one `done` |
| `Sse.LineMeans` | hfusionhub-frontend/src/utils/sse.ts:22-30 | only `data:` fields count, blanks around their text do not, a blank field is no event, and `[DONE]` is the end |
| `Sse.Dispatch` | hfusionhub-frontend/src/utils/sse.ts:90-106 | the inner loop delivers the events up to the one that ends the stream |
| `Sse.DeliveredAre` | hfusionhub-frontend/src/utils/sse.ts:90-106 | up to the first `[DONE]` or, with a type filter, the first JSON null, exactly the texts that are JSON and, with a filter, carry that type are delivered; how the loop ends |
| `Sse.ConsumeSseJsonStream` | hfusionhub-frontend/src/utils/sse.ts:86-113 | what is delivered depends on the received text alone, not on its chunks, and is that of its closed lines |
| `Sse.LastLineLost` | hfusionhub-frontend/src/utils/sse.ts:86-109 | the loop delivers what the whole text carries exactly when it had stopped before or the unclosed last line has nothing to deliver |
| `Sse.LastLineCanBeLost` | hfusionhub-frontend/src/utils/sse.ts:86-109 | an object is delivered with a final newline and lost without |
| `FeatureFlags.DeterministicHash` | python-ai/app/utils/feature_flag.py:361-366 | the fold is the big-endian number of the first eight bytes, below 2^64 |
| `FeatureFlags.EightBytes` | python-ai/app/utils/feature_flag.py:361-366 | that number is the sum of the bytes, each by its place |
| `FeatureFlags.FirstMatchIsWinner` | python-ai/app/utils/feature_flag.py:262-275 | the first match of the sorted rules is the matching rule of highest priority, earliest on ties; there is none exactly when no rule matches |
| `FeatureFlags.WinnerIs` | python-ai/app/utils/feature_flag.py:262-293 | a rule wins exactly when it is for the context and every other such rule has a weaker scope, or the same and a later place |
| `FeatureFlags.EvaluateByWinner` | python-ai/app/utils/feature_flag.py:241-275 | the winning rule decides, inside the time window |
| `FeatureFlags.EvaluateByFlag` | python-ai/app/utils/feature_flag.py:274-275 | where no rule matches the flag itself decides |
| `FeatureFlags.WinnerDecides` | python-ai/app/utils/feature_flag.py:241-326 | who gets the flag when a rule wins, from its settings and, where it has none, the flag's: inside the window, with the base value on, whoever is not on the blacklist in force and is on the whitelist in force, or without one has a bucket below the percentage, if any |
| `FeatureFlags.FlagDecides` | python-ai/app/utils/feature_flag.py:328-350 | the same from the flag's settings where no rule matches |
| `FeatureFlags.WhitelistKeepsOut` | python-ai/app/utils/feature_flag.py:340-342 | a flag with a whitelist of one user is on for that user alone |
| `FeatureFlags.OrderIrrelevant` | python-ai/app/utils/feature_flag.py:262-275 | reordering rules changes nothing while no two matching rules share a scope |
| `FeatureFlags.BlacklistedIsDenied` | python-ai/app/utils/feature_flag.py:312-314 | a user on the blacklist in force always gets false |
| `FeatureFlags.FlagBlacklistHoldsIff` | python-ai/app/utils/feature_flag.py:307-314 | a rule denies the users of the flag's blacklist, whatever else it sets, exactly when it has no blacklist or names them again |
| `FeatureFlags.FlagBlacklistCanBeLifted` | python-ai/app/utils/feature_flag.py:307-314 | a global rule with an empty blacklist lets a blacklisted user in |
| `FeatureFlags.RaisingKeepsOn` | python-ai/app/utils/feature_flag.py:320-324 | raising a rule's percentage never turns the flag off for anyone |
| `FeatureFlags.RaisingFlagKeepsOn` | python-ai/app/utils/feature_flag.py:344-348 | raising the flag's own percentage never turns it off for anyone |
| `FlagCache.AlwaysCoherent` | python-ai/app/utils/feature_flag.py:171-237 | over every interleaving at most one background refresh is live, the critical sections exclude each other, and all entries carry the one stamp `_last_fetch` and no flag key |
| `FlagCache.CacheIsOneAnswer` | python-ai/app/utils/feature_flag.py:204-235 | after the first install the cache is all of one backend answer and nothing else, stamped with the time at which the fetch of that answer began |
| `FlagCache.StampIs` | python-ai/app/utils/feature_flag.py:215-232 | a flag is cached as the answer has it but for its key, the last one of a name |
| `FlagCache.AnsweredAtOnceIff` | python-ai/app/utils/feature_flag.py:171-185 | a reader is answered at once exactly if its flag is cached and less than 30 seconds old, and goes on to trigger a refresh otherwise |
| `FlagCache.TriggerLeavesFetch` | python-ai/app/utils/feature_flag.py:187-194 | whoever has triggered a refresh leaves a live one behind |
| `FlagCache.FetchSkippedIff` | python-ai/app/utils/feature_flag.py:204-237 | a fetch is skipped exactly if it is unforced and the last one began less than 30 seconds ago, and a failed one changes nothing |
| `FlagCache.NoDeadlock` | python-ai/app/utils/feature_flag.py:171-235 | while a thread is unfinished some thread can step: the two locks are taken in one order |
| `FlagCache.CachedUntilOmitted` | python-ai/app/utils/feature_flag.py:171-237 | a cached flag is never answered by the degradation policy until a snapshot without it is installed, however many fetches fail |
| `FlagCache.FreshWithoutForce` | python-ai/app/utils/feature_flag.py:187-235 | without forced refreshes the cache never goes back to an older snapshot |
| `FlagCache.CacheAgesIffOvertaken` | python-ai/app/utils/feature_flag.py:204-235 | over every run, some install replaces the cache by an older snapshot if and only if a fetch that read the clock later was installed while an earlier one was in flight and the earlier one was installed afterwards |
| `FlagCache.ForcedRefreshCanAge` | python-ai/app/utils/feature_flag.py:165-167 | two overlapping forced refreshes suffice for that |
| `FlagCache.CachedRolloutsAreNested` | python-ai/app/utils/feature_flag.py:221-231 | in every reachable cache, whoever is in the percentage rollout of one flag is in that of every flag with at least its percentage |
| `SendGuard.ChatSending.ReleaseMine` | hfusionhub-frontend/src/composables/useChatSending.ts:28-33 | the guard is freed once by each owner |
| `SendGuard.ChatSending.BeginExclusive` | hfusionhub-frontend/src/composables/useChatSending.ts:24-34 | entry is refused while sending and makes a new owner otherwise |
| `SendGuard.ChatSending.EndExclusive` | hfusionhub-frontend/src/composables/useChatSending.ts:35-39 | only the registered owner frees the guard at its end |
| `SendGuard.ChatSending.Force` | hfusionhub-frontend/src/composables/useChatSending.ts:43-45 | a forced release frees the registered owner, if there is one |
| `SendGuard.SendingIffOneOwner` | hfusionhub-frontend/src/composables/useChatSending.ts:20-48 | over all interleavings `sending` holds exactly when there is one unreleased owner, which is registered and running |
| `SendGuard.LateEndChangesNothing` | hfusionhub-frontend/src/composables/useChatSending.ts:35-39 | work that ends after a forced release never changes the guard |
| `SendGuard.WhoRuns` | hfusionhub-frontend/src/composables/useChatSending.ts:24-45 | what runs beside the owner was let go by a forced release; without one at most one runs |
| `SendGuard.TwoTasksAfterStop` | hfusionhub-frontend/src/composables/useChatSending.ts:43-45 | with a forced release two can run at once |
| `ActiveRequests.Registry.TrackActiveRequest` | python-ai/app/api/chat.py:212-216 | the id lists the new registrant, and no other id changes |
| `ActiveRequests.Registry.CleanUp` | python-ai/app/api/chat.py:946-947 | the entry goes exactly if it is still the registrant's own |
| `ActiveRequests.Registry.CancelChat` | python-ai/app/api/chat.py:1329-1338 | a running registrant is cancelled and removed; otherwise nothing changes |
| `ActiveRequests.RegistryIsExact` | python-ai/app/api/chat.py:212-216 | an id lists exactly its latest registrant, unless that was swept or cancelled |
| `ActiveRequests.CancelIs` | python-ai/app/api/chat.py:1329-1338 | a cancellation reaches exactly the listed task that is not done, and changes nothing otherwise |
| `ActiveRequests.ListedAreRunningIff` | python-ai/app/api/chat.py:942-947 | all listed requests are running exactly when every latest registrant that ended uncancelled was swept |
| `ActiveRequests.GuardSkipsCleanUp` | python-ai/app/api/chat.py:562-566 | for every agent run the clean-up of a stream read by the output guard is not reached |
| `ActiveRequests.GuardedStreamsDoNotSweep` | python-ai/app/api/chat.py:562-566 | a stream that the guard reads contributes no sweep to the registry's runs |
| `ActiveRequests.GuardedStaysListed` | python-ai/app/api/chat.py:934-950 | in every run of guarded streams, one that ends uncancelled stays listed until its id is used again |
| `ActiveRequests.UnsweptStaysListed` | python-ai/app/api/chat.py:934-947 | without sweeps a stream that ends uncancelled stays listed until its id is used again |
| `ActiveRequests.FinishedButListed` | python-ai/app/api/chat.py:934-947 | a finished stream can be listed |
| `ChatStream.EventGenerator` | python-ai/app/api/chat.py:846-945 | for any chunks and ending the frames are the start, the forwarded chunks, the closing events and the sentinel |
| `ChatStream.CloseStream` | python-ai/app/api/chat.py:896-933 | the fallback answer and the final events for every way to end |
| `ChatStream.PassedAre` | python-ai/app/api/chat.py:183-209 | all chunks but evaluations are sent, in order and each in its browser form; a vision fallback also holds back those with text |
| `ChatStream.ClosingAre` | python-ai/app/api/chat.py:896-933 | the closing frames, one by one, for every way to end |
| `ChatStream.NormalReader` | python-ai/app/api/chat.py:861-945 | without a vision fallback the reader of a normal run gets the agent's answer, and plain texts as their concatenation |
| `ChatStream.ContentGuardedSse` | python-ai/app/api/chat.py:547-600 | the frames up to the sentinel unchanged, a replacement exactly for violating text, and the sentinel |
| `ChatStream.BlockedIff` | python-ai/app/api/chat.py:583-593 | a text is replaced exactly when it violates the policy and is not blank |
| `ChatStream.JudgedTextIs` | python-ai/app/api/chat.py:573-583 | the guard judges the text of all frames that are marked neither as cancelled nor as failed |
| `ChatStream.StreamShape` | python-ai/app/api/chat.py:846-950 | every guarded run starts with `run_started`, ends with its only `[DONE]`, and differs from the unguarded one by at most one replacement right before it |
| `ChatStream.RunEvents` | python-ai/app/api/chat.py:846-933 | beside the agent's events that are sent, the stream has one `run_started`, one `run_completed` exactly after a normal end without `run_error` or `approval_required`, and one `run_error` exactly after any other end |
| `ChatStream.EventsArriveIff` | python-ai/app/api/chat.py:881-894 | all events of a kind arrive if and only if there is no vision fallback or none of them has content |
| `ChatStream.VisionSwallowsEvent` | python-ai/app/api/chat.py:889-904 | with a vision fallback a `run_error` with content is not sent, and no `run_completed` either |
| `ChatStream.VisionReader` | python-ai/app/api/chat.py:896-901 | with a vision fallback the reader of a normal run is left with the buffered text, or with the vision model's answer where that is blank or a refusal |
| `ChatStream.VisionReaderIff` | python-ai/app/api/chat.py:861-901 | that is the agent's answer after its last reset exactly when the buffered text is passed on and none of it was taken back or flagged, or the vision model happens to agree |
| `ChatStream.VisionJoinsRetracted` | python-ai/app/api/chat.py:889-901 | text that was taken back and text that replaced it reach the reader together |
| `ChatStream.VisionJoinsExample` | python-ai/app/api/chat.py:889-901 | that happens for a concrete run |
| `ChatStream.GuardedAnswer` | python-ai/app/api/chat.py:553-556 | the reader ends with the fixed response if the streamed text violates the policy and with the streamed answer otherwise |
| `ChatStream.GuardJudgesAnswerIff` | python-ai/app/api/chat.py:573-584 | the guard judges exactly the reader's answer if and only if nothing was streamed before the last reset |
| `ChatStream.RetractedTextIsJudged` | python-ai/app/api/chat.py:573-598 | an answer that would pass is replaced whenever the text before the reset makes the whole violate |
| `ChatStream.RetractedTextExample` | python-ai/app/api/chat.py:573-598 | that happens for a concrete stream of content, reset and content |
| `BidStream.StreamIsFifo` | python-ai/app/api/bid.py:153-196 | over every interleaving the stream is `run_started`, the callbacks in order, exactly one of `run_completed` and `run_error`, and `[DONE]` |
| `BidStream.ClosedStreamIs` | python-ai/app/api/bid.py:153-196 | a closed stream has one event for each callback, in order, and then `run_completed` exactly if the workflow succeeded and `run_error` exactly if it failed |
| `BidStream.NeverStuck` | python-ai/app/api/bid.py:162-196 | until the stream is closed the producer or the generator can step |
| `SqlSplit.RawSegments` | scripts/check-h2-schema-drift.py:45-67 | the scanning loop computes the segments between the top-level commas |
| `SqlSplit.SplitTopLevel` | scripts/check-h2-schema-drift.py:45-68 | the result is those segments trimmed, without blank ones |
| `SqlSplit.JoinSegments` | scripts/check-h2-schema-drift.py:63-67 | the raw segments rejoined with commas are the input |
| `SqlSplit.BoundariesAreCuts` | scripts/check-h2-schema-drift.py:51-65 | every boundary between segments is a comma at depth 0 outside quotes |
| `SqlSplit.OneSegmentIffNoCut` | scripts/check-h2-schema-drift.py:63-67 | there is one segment exactly when the text has no such comma |
| `SqlCuts.CutIff` | scripts/check-h2-schema-drift.py:51-65 | without the scanner: a comma is cut exactly when the text before it consists of characters and closed literals, in single quotes with backslash escapes or in double quotes, and has as many opening as closing parentheses outside of them |
| `SqlCuts.UnquotedCutIff` | scripts/check-h2-schema-drift.py:59-65 | before the first quote that is a plain count of parentheses |
| `SqlCuts.ClosedIff` | scripts/check-h2-schema-drift.py:51-62 | a part closes its quotes and parentheses exactly when it is such a text |
| `SqlCuts.PartsAreTrimmed` | scripts/check-h2-schema-drift.py:68 | every part that is returned is trimmed and not empty, and there is one for each segment that is not blank |
| `SqlSplit.SplitJoin` | scripts/check-h2-schema-drift.py:45-68 | splitting the comma-join of trimmed non-empty parts returns them exactly when no part has a top-level comma and all but the last close their quotes and parentheses |
| `SchemaDrift.SchemaDict.ApplyStatement` | scripts/check-h2-schema-drift.py:88-126 | the new dictionary is the statement's effect on the old one |
| `SchemaDrift.EffectIs` | scripts/check-h2-schema-drift.py:88-108 | table by table: CREATE adds columns to a table that it makes if need be, a table rename moves all columns and replaces the target, an ALTER concerns its own table only |
| `SchemaDrift.ClauseIs` | scripts/check-h2-schema-drift.py:110-126 | column by column: what one ADD, DROP COLUMN or RENAME COLUMN does; the eleven words that begin keys and constraints are no columns |
| `SchemaDrift.SchemaDict.AlterColumns` | scripts/check-h2-schema-drift.py:110-126 | adds, drops and renames take effect in that order |
| `SchemaDrift.SchemaDict.ApplyAll` | scripts/check-h2-schema-drift.py:134-147 | a chain of statements is replayed in order |
| `SchemaDrift.ComputeDrift` | scripts/check-h2-schema-drift.py:150-163 | the drift is exactly the missing tables and columns |
| `SchemaDrift.NoDriftIffContained` | scripts/check-h2-schema-drift.py:155-163 | there is no drift exactly when the migrated schema is contained in the H2 schema |
| `SchemaDrift.MirrorKeepsContainment` | scripts/check-h2-schema-drift.py:88-126 | one statement applied to both schemas keeps containment exactly when it is no rename whose source only the H2 schema has and whose target loses columns |
| `SchemaDrift.MirroredChainStaysGreen` | scripts/check-h2-schema-drift.py:134-163 | mirroring a chain whose renames find their source keeps the check free of drift |
| `SchemaDrift.RenameCanLoseContainment` | scripts/check-h2-schema-drift.py:104-108 | a mirrored rename can introduce drift |
| `SchemaDrift.AlterIs` | scripts/check-h2-schema-drift.py:110-126 | an ALTER TABLE with any number of clauses gives its table one union, one difference and a renaming of each column by itself |
| `SchemaDrift.MirrorKeepsBaselineIff` | scripts/check-h2-schema-drift.py:185-198 | for every statement, mirroring it keeps the check green under every baseline if and only if it makes no new entry, a condition on the two schemas before |
| `SchemaDrift.BaselineCanBeLeft` | scripts/check-h2-schema-drift.py:185-198 | a mirrored statement can fail the check although the baseline accepted all drift before |
| `SchemaDrift.ClausesReplay` | scripts/check-h2-schema-drift.py:110-126 | a statement does what its clauses do one after the other |
| `SchemaDrift.MirroredChainKeepsBaseline` | scripts/check-h2-schema-drift.py:134-147 | a chain of statements none of which makes a new entry when its turn comes keeps the check green |

## Left out

Stated more weakly than the code:

- Warehouse.PlansAgree: costs are exact reals; decimal overflow and the averages, percentiles, monthly estimate and top-20 columns are not part of it.
- Metrics.NdcgBounds: `1 / log2` is any positive, strictly decreasing discount over the reals, so that floating-point rounding of sums and quotients is not modelled.
- Embedding.EmbeddingProgress: the percentage is computed with exact division; a floating-point product just below an integer could report one point less.
- Ledger.PickTenant: weights are exact decimals; the cumulated floating-point weights of the source differ from them in the last bits.
- ContainerRun.QualifiedDigest: lower-casing is that of ASCII letters, the only ones that can yield a digest.
- ContainerRun.ExecuteTool: errors of kill, remove and the statistics calls are ignored as in the source, and not told apart from success.
- IndexReplacement.AlwaysAVersion: an insert takes effect completely or not at all, and the copy of chunk metadata kept beside the vector store is not part of it.
- JsonText.ReceiveTexts: characters outside the basic plane are single characters; surrogate pairs, and UTF-8 bytes cut inside a character, are left to the decoder.
- BidStream.StreamIsFifo: a section payload with its own `event` or `__done__` key would override the frame's; payloads are taken to have none.
- TaskStatus.RemainingIs: it takes estimates from 15 to 900 seconds, the only ones that the service stores.

Not modelled:

- Overlapping runs for the same document: one run at a time replaces its index.
- Clients that disconnect in the middle of a stream, and the task cancellation that follows.
- The degradation policy of `is_enabled`, which is a table of flag names.
- Regular expressions of the SQL reader, one of which wants a closing backtick behind RENAME COLUMN: the replay starts from parsed statements. Comment stripping, statement splitting at semicolons and the file order of migrations are not part of this model.
- `_is_ip_or_cidr` and the host-name pattern: which texts are networks or host names is a parameter of the compiler; addresses are IPv4, and a name resolves to fixed addresses.
- The image-tag and token checks in front of `execute_tool`, its resource limits and usage figures.
- `aggregate_metrics`, `check_gates` and `diff_against_baseline`: short arithmetic and case splits.
- Aggregates of agent steps and meters, `dwd_agent_step`, `dwd_agent_run` and the evaluation records: the same group-by and join shapes again.
- Random distributions of the seed generator: draws are arbitrary within their ranges.
- HTTP clients, Docker, Milvus, Spark and MySQL, FastAPI routing, hashing and signing: their answers are parameters.
- Agents, retrievers, the guardrail engine and the bid workflow: arbitrary chunk sequences, callbacks and verdicts.
