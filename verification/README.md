# Verified models of total-agent-memory's caches, scorers and daemons

This project models the compact algorithms and state machines of total-agent-memory in Dafny and
proves what they promise over all inputs and all runs. `dafny verify dfyconfig.toml` checks it.

| file | models |
|---|---|
| `Lru.dfy`, `QueryCache.dfy`, `CacheUsage.dfy`, `CacheLayer.dfy` | the LRU caches with expiry (`src/cache.py`, `src/cache_layer.py`) |
| `EditDistance.dfy`, `CanonicalTags.dfy`, `TagResolver.dfy` | Levenshtein ratio, vocabulary loader, tag resolution and normalisation (`src/canonical_tags.py`) |
| `TokenMetrics.dfy` | token F1 and ROUGE-L (`benchmarks/locomo_bench_llm.py`) |
| `SignBits.dfy`, `VectorIndex.dfy` | sign-bit packing and the two-stage vector search (`scripts/reembed.py`, `benchmarks/vector_index_eval.py`) |
| `Calibrate.dfy` | per-category threshold sweep (`scripts/calibrate.py`) |
| `Ndcg.dfy` | NDCG@k (`benchmarks/longmemeval_bench.py`) |
| `DiversePick.dfy` | few-shot selection (`scripts/mine_locomo_fewshot.py`) |
| `Supervisor.dfy`, `SupervisorSafety.dfy`, `SupervisorRestarts.dfy` | the container supervisor (`docker/tam_supervisor.py`) |
| `ReflectionDaemon.dfy` | the debounced trigger watcher (`docker/reflection_daemon.py`) |
| `QaCommon.dfy` | the shared spend cap, the retry loop and the result log (`benchmarks/_qa_common.py`) |
| `ActiveContext.dfy`, `ContextRoundTrip.dfy` | the context file printer and reader (`src/active_context.py`) |
| `AutoFilter.dfy` | the prose-preserving filter (`src/autofilter.py`) |
| `Sequences.dfy`, `Text.dfy`, `Arithmetic.dfy` | shared facts about sequences, strings and fractions |

Conventions. Code that updates objects is modelled by classes and loops whose contracts name a
function of the old state; the theorems are lemmas about those functions. An insertion-ordered
dictionary is a sequence of entries with distinct keys. Clock readings, poll results, signals,
file touches, costs and embedding matches are inputs, quantified over. Locked sections are single
steps, so a history is any interleaving of threads. Ratios and probabilities are exact reals.

Where the code differs from its own words, the model follows the code: the docstring of `rouge_l`
says LCS divided by the longer length, the code returns the harmonic mean of precision and recall
(`benchmarks/locomo_bench_llm.py:210-227`).

Some promises are false in part, and then the exact boundary is proved for all inputs:

- the early length reject changes no match only for thresholds from one half (`EarlyRejectExactly`);
- tag lists are idempotent when canonicals map to themselves, those that forms map to and those that
  the embedding match picks, which is any declared one (`IdempotentExactly` and its three special
  cases, of which the one for loaded vocabularies uses that a lone comma is never a form);
- NDCG is at most 1 for distinct ids (`BoundedExactlyWhenDistinct`);
- recall is monotone in the candidates against a reference that breaks ties like the exhaustive
  search (`MonotoneExactly`);
- the recall cache is coherent when queries sharing a key share a result (`CoherentExactlyWhenSeparate`),
  and with recalls in flight when every set keeps a result that is still current (`ExactInFlight`);
- inclusion between cache sizes is about equal operation sequences, and under the look-up-then-put
  usage it fails for all sizes 0 < m < n and every non-negative ttl (`HitsIncludedExactly`);
- pitfalls, next steps and summary of the context file survive line breaks and embedded headings only
  as `PitfallsExactly`, `NextStepsExactly` and `SummaryRoundTripExactly` say;
- the result log reloads when no value renames its row or breaks its line (`ReloadExactly`);
- late spawns happen in the window that `LateSpawnExactly` names, and triggers are lost in the events
  that `SafeExactly` names.

## Model

| member | source | states |
|---|---|---|
| QueryCache.QueryCache.constructor | src/cache.py:54-60 | a new cache is empty, with no hits or misses |
| QueryCache.QueryCache.Get | src/cache.py:103-130 | returns the entry's value unless it is missing or past its expiry; exactly one of the two counters grows; an expired entry is dropped, a hit becomes the most recent |
| QueryCache.QueryCache.Put | src/cache.py:132-165 | the new entry is last, no other entry has its key, and the oldest entries beyond the capacity are gone |
| QueryCache.QueryCache.Invalidate | src/cache.py:167-191 | removes everything, or exactly the entries tagged with the project up to case, and returns how many |
| QueryCache.QueryCache.ClearExpired | src/cache.py:209-224 | removes exactly the entries past their expiry and returns how many |
| CacheUsage.KeysAreNewest | src/cache.py:9-15 | under the documented look-up-then-put usage the cached keys are the most recently requested ones, whatever expired in between |
| CacheUsage.SmallerHoldsNewest | src/cache.py:9-15 | under that usage the smaller cache's keys are the most recent suffix of the larger's |
| CacheUsage.HitsAlone | src/cache.py:115-130 | under that usage the smaller cache hits alone exactly between the larger entry's expiry and its own |
| CacheUsage.HitsIncludedExactly | src/cache.py:9-15 | under that usage, with one ttl and a clock that never goes back, the smaller cache never hits alone if and only if it is empty, as large, or the ttl is negative |
| Lru.EvictOldest | src/cache.py:163-165 | popping from the front while over capacity keeps the newest entries in order |
| Lru.Store | src/cache.py:152-165 | refreshing and inserting have the same effect: the entry ends up last, then the oldest are evicted |
| Lru.RemoveWhere | src/cache.py:183-191 | listing keys and deleting them one by one removes exactly the matching entries and counts them |
| Lru.HitMeaning | src/cache.py:115-130 | a lookup hits exactly when an entry with its key is not past its expiry |
| Lru.RunSound | src/cache.py:163-165 | after every history keys are distinct and the size is within the capacity |
| Lru.Inclusion | src/cache.py:103-224 | same operations and clock on capacities m <= n: the smaller cache is an order-preserving subsequence of the larger, at most n - m entries behind, with no more hits and as many lookups |
| Lru.HitAtLargerCapacity | src/cache.py:115-130 | a hit at the smaller capacity is the same hit at the larger |
| Lru.PresentIsLive | src/cache.py:115-165 | a cached entry is always the last one put that was neither purged nor found expired, and only keys used since rank above it |
| Lru.Retained | src/cache.py:115-165 | a live key stays, with its last value, while fewer than capacity distinct other keys were put or hit since its own last put or hit |
| Lru.RetainedExactly | src/cache.py:115-165 | when entries leave only by eviction, a live key is present if and only if fewer than capacity others were used since |
| Lru.HitIsFresh | src/cache_layer.py:175-213 | a hit returns the value of the last set of its key, made at most its ttl before the read and not invalidated in between |
| Lru.PurgedStaysAway | src/cache_layer.py:215-233 | invalidated entries do not come back until one of their kind is set again |
| Lru.ClearingHarmless | src/cache.py:209-224 | clearing the expired keeps exactly the others, and no lookup from then on can tell |
| CacheLayer.L1QueryCache.Get | src/cache_layer.py:175-190 | disabled: misses without touching anything; enabled: as the query cache |
| CacheLayer.L1QueryCache.Set | src/cache_layer.py:192-213 | disabled: no effect; enabled: stores with the given non-negative or the default ttl and evicts |
| CacheLayer.L1QueryCache.InvalidateAll | src/cache_layer.py:215-220 | wipes the cache whatever the flag says and returns the old size |
| CacheLayer.L1QueryCache.InvalidateById | src/cache_layer.py:222-233 | removes exactly the entries that mention the record, whatever the flag says |
| CacheLayer.NoHitMentions | src/cache_layer.py:222-233 | after invalidation by id no hit mentions the record until such a result is set again |
| CacheLayer.TwoLevelCache.Recall | src/cache_layer.py:506-528 | a cached recall answers from the cache or computes and stores, moving the system by exactly one recall step |
| CacheLayer.TwoLevelCache.StoreChanged | src/cache_layer.py:530-531 | a write followed by the wipe is exactly one write step |
| CacheLayer.RepeatHits | src/cache_layer.py:506-528 | after a computed recall the same query hits within the time-to-live, with its result and ids |
| CacheLayer.DisabledComputes | src/cache_layer.py:175-213 | with the flag off a recall computes and leaves the cache alone |
| CacheLayer.ForgottenGone | src/cache_layer.py:222-233 | a forgotten record is in no cached result, and nothing else is gone |
| CacheLayer.LifetimeMeaning | src/cache_layer.py:196-205 | the given time-to-live clamped at 0, or the default |
| CacheLayer.CoherentIfSeparate | src/cache_layer.py:28-29 | with a wipe after every write each recall equals recomputing on the current store, even if the flag is toggled mid-run |
| CacheLayer.CoherentExactlyWhenSeparate | src/cache_layer.py:102-119 | that holds over all runs if and only if queries sharing a key share their results or the capacity is 0 |
| CacheLayer.ExactInFlight | src/cache_layer.py:506-531 | with computations, sets, writes and lookups of any threads interleaved, all hits are exact at every moment if and only if every set keeps a result that is still the result |
| CacheLayer.FreshWithoutWrite | src/cache_layer.py:506-531 | a set is fresh when no write lands between its computation and it |
| EditDistance.LevenshteinRatio | src/canonical_tags.py:167-190 | the loop returns 0 for an empty string, 1 for equal ones, 0 beyond the length gap, else one minus distance over the longer length |
| EditDistance.RollingRows | src/canonical_tags.py:178-189 | two rolling rows compute the distance recurrence |
| EditDistance.SomeScriptAttains | src/canonical_tags.py:178-189 | some chain of single-character edits is as short as the distance |
| EditDistance.NoScriptIsShorter | src/canonical_tags.py:178-189 | no chain of single-character edits is shorter than the distance |
| EditDistance.Symmetric | src/canonical_tags.py:178-189 | the distance is symmetric |
| EditDistance.Triangle | src/canonical_tags.py:178-189 | the distance obeys the triangle inequality |
| EditDistance.ZeroExactlyWhenEqual | src/canonical_tags.py:171-172 | the distance is 0 exactly for equal strings |
| EditDistance.RatioLaws | src/canonical_tags.py:167-190 | the ratio lies in [0,1], is symmetric, and is 1 exactly for equal non-empty strings |
| EditDistance.RatioMeaning | src/canonical_tags.py:167-190 | 0 when the lengths differ by more than half of the longer, else the part of the longer length that the least number of edits leaves |
| EditDistance.EarlyReject | src/canonical_tags.py:174-176 | a pair rejected for its lengths has a true ratio below one half; every other pair gets its true ratio |
| TagResolver.LevenshteinMatch | src/canonical_tags.py:193-205 | the scan returns the canonical of the first form with the highest ratio if that reaches the threshold |
| TagResolver.BestIndexMeaning | src/canonical_tags.py:196-202 | the scan finds the first maximum, or nothing when no ratio is positive |
| TagResolver.EarlyRejectHarmless | src/canonical_tags.py:174-176 | for thresholds from 0.5 the reject never changes the matched canonical |
| TagResolver.EarlyRejectExactly | src/canonical_tags.py:174-176 | the reject is harmless for every tag and vocabulary if and only if the threshold is at least 0.5 |
| CanonicalTags.LoadVocabulary | src/canonical_tags.py:82-133 | a missing file gives the empty vocabulary; otherwise lines load in order, first definition of a form wins, a duplicate canonical is an error |
| CanonicalTags.LoadMeaning | src/canonical_tags.py:96-130 | topics in order, canonicals distinct, each form mapped to the canonical of the first line listing it |
| CanonicalTags.LoadsExactly | src/canonical_tags.py:109-114 | a load succeeds if and only if no two rows have the same canonical |
| CanonicalTags.FormsInOrder | src/canonical_tags.py:115-124 | the forms are listed in the order in which they first occur |
| CanonicalTags.PartsMeaning | src/canonical_tags.py:96-107 | the parts of a line are its comma-separated pieces, stripped and folded, without blank ones; none for blank lines and comments |
| CanonicalTags.RowsAppend | src/canonical_tags.py:96-107 | the rows of a file are those of its lines in order |
| CanonicalTags.LoaderSelfMaps | src/canonical_tags.py:115-124 | every mapped value is a declared canonical, and all canonicals map to themselves if and only if none is listed by an earlier topic |
| CanonicalTags.LoaderWellFormed | src/canonical_tags.py:100-107 | all forms and canonicals of a loaded vocabulary are normalised and non-empty |
| TagResolver.NormaliseTags | src/canonical_tags.py:355-390 | the loop with its seen-set computes the normalised list |
| TagResolver.ResolvesToCanonical | src/canonical_tags.py:320-352 | whichever rule resolves a tag, the result is a declared canonical, normalised |
| TagResolver.CascadeMeaning | src/canonical_tags.py:320-352 | for any tag, stripped and folded: a form gives its canonical; otherwise the first form that overlaps with the tag; otherwise the embedding match; otherwise the first form of the highest ratio if that reaches the threshold; otherwise nothing |
| TagResolver.NormalisedInOrder | src/canonical_tags.py:368-390 | the list is what the inputs contribute in order, canonical before tag, each kept where it first occurs |
| TagResolver.NormalisedContents | src/canonical_tags.py:355-390 | no duplicates, and exactly the non-empty normalised inputs and their canonicals |
| TagResolver.IdempotentExactly | src/canonical_tags.py:355-390 | normalising twice changes nothing, for all inputs, if and only if every canonical a form maps to, and every one the embedding match picks for a tag that gets to it, maps to itself |
| TagResolver.IdempotentExactlyWhenSettled | src/canonical_tags.py:355-390 | without an embedding model: if and only if every canonical a form maps to maps to itself |
| TagResolver.AlwaysIdempotentExactly | src/canonical_tags.py:262-286 | for every embedding match at all: if and only if each canonical maps to itself, or each one a form maps to does and no tag gets past the text rules |
| TagResolver.AlwaysIdempotentAfterLoad | src/canonical_tags.py:82-133 | for a loaded vocabulary and every embedding match: if and only if no canonical is listed by an earlier topic |
| TagResolver.IdempotentAfterLoad | src/canonical_tags.py:82-133 | idempotence for every loaded vocabulary in which no canonical is listed by an earlier topic, and every embedding match |
| TokenMetrics.LcsTable | benchmarks/locomo_bench_llm.py:214-222 | the filled table's last cell is the LCS recurrence |
| TokenMetrics.LcsAttained | benchmarks/locomo_bench_llm.py:214-222 | some common subsequence has that length |
| TokenMetrics.LcsLongest | benchmarks/locomo_bench_llm.py:214-222 | no common subsequence is longer |
| TokenMetrics.RougeL | benchmarks/locomo_bench_llm.py:209-227 | 0 for an empty side, otherwise the harmonic mean of LCS precision and recall |
| TokenMetrics.RougeLaws | benchmarks/locomo_bench_llm.py:209-227 | equals 2 LCS / (n + m), 0 for an empty side, is symmetric, lies in [0,1], and is 1 exactly for equal non-empty lists |
| TokenMetrics.NumSame | benchmarks/locomo_bench_llm.py:190-193 | the summed dictionary is the size of the multiset overlap |
| TokenMetrics.F1Score | benchmarks/locomo_bench_llm.py:186-198 | the empty cases, and otherwise the harmonic mean of overlap precision and recall |
| TokenMetrics.F1Laws | benchmarks/locomo_bench_llm.py:186-198 | equals 2 overlap / (n + m), 0 when one side is empty; symmetric, in [0,1], and 1 exactly for permutations |
| TokenMetrics.RougeAtMostF1 | benchmarks/locomo_bench_llm.py:186-227 | ROUGE-L never exceeds token F1 |
| SignBits.ToBinaryBlob | scripts/reembed.py:93-99 | one bit per component, most significant first, set exactly for positive components, padding clear |
| SignBits.PackedMeaning | scripts/reembed.py:95-98 | bit by bit: bit 7 - i mod 8 of byte i div 8 is set exactly when component i exists and is positive |
| SignBits.HammingCountsDisagreements | benchmarks/vector_index_eval.py:80 | popcount of the xor of packed rows is the number of sign disagreements |
| SignBits.PackedUnique | benchmarks/vector_index_eval.py:58 | any packing with those bits is the same bytes |
| VectorIndex.SelectedExactly | benchmarks/vector_index_eval.py:81-86 | partition plus ties selects exactly the first min(c,n) indices of the stable order by (distance, index), ascending |
| VectorIndex.RescoredOrder | benchmarks/vector_index_eval.py:86-88 | sorting the selected indices makes stable rescoring agree with stable order by the full scores |
| VectorIndex.SurvivorKept | benchmarks/vector_index_eval.py:81-88 | an exact top hit that survived the prefilter is returned |
| VectorIndex.FoundIsSurvived | benchmarks/vector_index_eval.py:67-71 | the hits of the stable exhaustive order found are exactly those that survived the prefilter |
| VectorIndex.RecallMonotone | benchmarks/vector_index_eval.py:78-89 | against the stable exhaustive order recall never falls as the candidate count grows |
| VectorIndex.UntiedReference | benchmarks/vector_index_eval.py:59-61 | a best list of another index without a tie at its end has the members of the stable exhaustive result |
| VectorIndex.MonotoneExactly | benchmarks/vector_index_eval.py:59-71 | recall against a full-length reference list is monotone for all distances if and only if the list has those members |
| VectorIndex.ExactWhenAllCandidates | benchmarks/vector_index_eval.py:77-88 | with at least as many candidates as rows the result list equals the exhaustive one |
| VectorIndex.BinaryHitsAreBest | benchmarks/vector_index_eval.py:86-88 | the hits are the best of the selected rows by dot product and then index, as many as asked for and there are |
| VectorIndex.ExactHitsAreBest | benchmarks/vector_index_eval.py:77 | the exhaustive hits are the best of all rows |
| VectorIndex.SearchOverSigns | benchmarks/vector_index_eval.py:58-80 | the search over packed bytes is the search by sign disagreements |
| Calibrate.CandidateForEvery | scripts/calibrate.py:154-155 | the J of every real threshold is the J of some candidate |
| Calibrate.CandidatesMeaning | scripts/calibrate.py:153 | the candidates are exactly the probabilities and the nineteen multiples of 0.05 below 1, ascending |
| Calibrate.JMeaning | scripts/calibrate.py:157-164 | J is the share of positives at or above the threshold minus that of negatives, as sizes of index sets |
| Calibrate.IndexesMeaning | scripts/calibrate.py:140-142 | a category's indices are exactly those of its samples, ascending |
| Calibrate.Youden | scripts/calibrate.py:158-166 | the confusion counts with guarded denominators give J |
| Calibrate.BestThreshold | scripts/calibrate.py:154-169 | the sweep returns the smallest candidate whose J no real threshold exceeds, and that J is not negative |
| Calibrate.SuggestThresholds | scripts/calibrate.py:129-171 | every category gets 0.45 when it has under five samples or lacks a class, else its rounded optimum |
| Ndcg.NdcgLaws | benchmarks/longmemeval_bench.py:421-425 | for duplicate-free lists NDCG@k is in [0,1], and 1 exactly when the first min(gold, k) ids are all gold |
| Ndcg.NdcgMeaning | benchmarks/longmemeval_bench.py:421-425 | the gain of the first k ids over the ideal one, and 0 without gold ids or for k = 0 |
| Ndcg.GainByPlace | benchmarks/longmemeval_bench.py:421-425 | replacing one id changes the gain by exactly the difference of what the two are worth at that place |
| Ndcg.IdealIsAllGold | benchmarks/longmemeval_bench.py:421-425 | the ideal is the gain of a list of gold ids |
| Ndcg.EarlierIsBetter | benchmarks/longmemeval_bench.py:421-425 | moving a gold id before one that is not raises NDCG@k, by the difference of their discounts |
| Ndcg.BoundedExactlyWhenDistinct | benchmarks/longmemeval_bench.py:421-425 | NDCG@k is at most 1 for every gold set if and only if the first k ids are distinct |
| DiversePick.SelectDiverse | scripts/mine_locomo_fewshot.py:254-319 | the three loops with their seen-sets and early exits compute the three-pass selection |
| DiversePick.DiverseLaws | scripts/mine_locomo_fewshot.py:281-294 | each first-pass pick brings a new answer and a new stem or surface, and no such pair is left over unless the selection is full |
| DiversePick.GreedySteps | scripts/mine_locomo_fewshot.py:281-319 | each pass takes the pairs in pool order, the next one exactly when there is room and it brings what the pass asks for |
| DiversePick.SelectionLaws | scripts/mine_locomo_fewshot.py:254-319 | min(k, distinct pairs) distinct pool members with min(k, distinct answers) distinct answers |
| DiversePick.NoChoiceHasMoreAnswers | scripts/mine_locomo_fewshot.py:254-266 | no other choice of at most k pairs covers more canonical answers |
| Supervisor.Loop.VisitChild | docker/tam_supervisor.py:227-270 | one child: left alone, dropped, restarted with back-off, or given up, with signals before and during |
| Supervisor.Loop.RestartChild | docker/tam_supervisor.py:248-270 | window reset, counting, give-up with shutdown, or a back-off and a spawn |
| Supervisor.Loop.ReapPass | docker/tam_supervisor.py:224-274 | a whole pass; the alive counter is the number of running children |
| Supervisor.Loop.Supervise | docker/tam_supervisor.py:224-274 | the loop ends at the first pass that leaves nothing running, with 0 after a shutdown request and 1 otherwise |
| SupervisorSafety.RunsKeep | docker/tam_supervisor.py:224-274 | at every loop head of every run: all long-running children run until shutdown, counters count respawns, late spawns are bounded |
| SupervisorSafety.ExitOnlyAfterShutdown | docker/tam_supervisor.py:272-274 | with a long-running service the loop ends only after shutdown, so it returns 0 |
| SupervisorSafety.RestartsLimited | docker/tam_supervisor.py:249-253 | between two resets a service is respawned at most the maximal number of times, at every moment |
| SupervisorRestarts.VisitInRun | docker/tam_supervisor.py:224-270 | at every visit of every run: the last restart is the time of the last spawn; a failing exit resets the counter exactly when the window has passed since then, and is followed by a restart with back-off min(2^(n-1), 30) exactly when its number n is within the limit, otherwise by the flag and a child that stays down; no other exit is followed by anything |
| SupervisorRestarts.CrashLoopGivenUp | docker/tam_supervisor.py:248-259 | a child that always fails within the window of its last spawn is respawned at most the maximal number of times in all, and the next such failure raises the flag and leaves it down |
| SupervisorSafety.AtMostOneLateSpawn | docker/tam_supervisor.py:202-211 | at most one spawn follows the flag, and every other running child was told to stop |
| SupervisorSafety.LateVisitExactly | docker/tam_supervisor.py:261-264 | a visit ends in a late spawn exactly when a signal is handled during the back-off of a child about to be restarted; that child was not told to stop |
| SupervisorSafety.LateSpawnExactly | docker/tam_supervisor.py:224-274 | a run has a late spawn exactly when some visit of it has |
| SupervisorSafety.OnlyShrinks | docker/tam_supervisor.py:244-245 | with the flag up at a loop head nothing is spawned and the running set only shrinks |
| SupervisorSafety.EndsWhenAllExit | docker/tam_supervisor.py:244-274 | after shutdown the loop ends in the first pass that finds every child gone |
| ReflectionDaemon.Watcher.Iterate | docker/reflection_daemon.py:60-87 | one iteration: notice a newer mtime, run debounced, run as safety net, or wait |
| ReflectionDaemon.Watcher.Watch | docker/reflection_daemon.py:56-87 | the loop performs the iterations in order and starts exactly the runs the state calls for |
| ReflectionDaemon.DebouncedRunIsQuiet | docker/reflection_daemon.py:68-79 | a debounced run starts only when the last observed touch is at least the debounce old, and serves an unserved one |
| ReflectionDaemon.RunsAreFrequent | docker/reflection_daemon.py:81-87 | run starts are at most the interval plus one run and one loop step apart, however the file is touched |
| ReflectionDaemon.ObservesExactly | docker/reflection_daemon.py:62-71 | a touch is observed exactly when the mtime is above zero and above all earlier readings |
| ReflectionDaemon.DebouncedExactly | docker/reflection_daemon.py:73-79 | a debounced run starts exactly when the last touch observed is at least the debounce old and unserved |
| ReflectionDaemon.SafetyNetExactly | docker/reflection_daemon.py:81-85 | otherwise the safety net runs exactly when the interval has passed since the last run ended: neither early nor late |
| ReflectionDaemon.ServedInTime | docker/reflection_daemon.py:69-87 | once touches stop, a run starts within the debounce and one loop step of the last one observed |
| ReflectionDaemon.NoLostTrigger | docker/reflection_daemon.py:62-79 | a touch no run has followed is unseen on disk or pending, under rising mtimes and no removal of an unseen file; the runner may consume the file as it starts draining |
| ReflectionDaemon.SafeExactly | docker/reflection_daemon.py:56-87 | for every sequence of touches, removals and iterations whatever, no touch is ever lost if and only if each event was safe: newer than the last one observed or with something pending, and so on for removals, touches during a run and the clock |
| ReflectionDaemon.OrderlyIsSafe | docker/reflection_daemon.py:62-79 | rising mtimes without removals of unseen files are safe throughout |
| QaCommon.OpenAIClient.MaySpend | benchmarks/_qa_common.py:56-58 | the guard passes exactly when spending is below the budget, and is one guard step of the interleaving |
| QaCommon.OpenAIClient.AddCost | benchmarks/_qa_common.py:79-80 | adds the cost, and is one charge step of the interleaving |
| QaCommon.OpenAIClient.Request | benchmarks/_qa_common.py:61-75 | the reply of the one attempt that settles the request: the first that parses, is garbled or fails for good, or the fifth |
| QaCommon.ReplyUnique | benchmarks/_qa_common.py:61-75 | the attempts determine the reply |
| QaCommon.DecidingAttempt | benchmarks/_qa_common.py:61-75 | of five attempts the first that is not a network failure or one of seven codes decides, or the last, and how |
| QaCommon.OpenAIClient.Chat | benchmarks/_qa_common.py:54-81 | refused exactly when the budget is used up; charged once, for a parsed and priced reply even without a message; the steps it adds are a guard and then at most a charge or a failure |
| QaCommon.SpendCap | benchmarks/_qa_common.py:56-80 | at every step of every interleaving spending is below the budget plus one maximal cost per idle worker |
| QaCommon.OvershootBound | benchmarks/_qa_common.py:56-80 | the overshoot is below one maximal cost per worker |
| QaCommon.OvershootTight | benchmarks/_qa_common.py:56-80 | at every budget some interleaving comes as close to that bound as one likes |
| QaCommon.Cache.Open | benchmarks/_qa_common.py:87-95 | loading a log gives its rows by key, and fails exactly on a row without a key or a line broken up by its own characters |
| QaCommon.Cache.Put | benchmarks/_qa_common.py:100-105 | memory and log stay in agreement exactly when the value does not carry another key and nothing in the row breaks its line |
| QaCommon.RowMeaning | benchmarks/_qa_common.py:101 | a row has the value's fields, and the key unless the value brings its own |
| QaCommon.OneLineMeaning | benchmarks/_qa_common.py:90-105 | a row stays on one line unless a field's name or text holds U+0085, U+2028 or U+2029 |
| QaCommon.ReloadMeaning | benchmarks/_qa_common.py:90-95 | loading succeeds exactly when every row has a key and one line, and gives for each key its last row |
| QaCommon.ReloadExactly | benchmarks/_qa_common.py:87-105 | over any run of puts reloading gives the rows in memory at every moment if and only if no value carries another key and no row holds a character that breaks its line |
| ActiveContext.WriteActiveContext | src/active_context.py:68-109 | a missing project is refused; otherwise the text of header, stripped summary or placeholder, and the two sections |
| ActiveContext.RenderSection | src/active_context.py:57-65 | the text of a heading and a bullet per non-blank item, or the placeholder bullet |
| ActiveContext.ReadActiveContext | src/active_context.py:129-205 | a missing or blank file gives nothing; otherwise the context parsed from its lines |
| ActiveContext.SummaryText | src/active_context.py:184-191 | trimming blank lines and stripping is stripping the text, with placeholders read as empty |
| ContextRoundTrip.LastHeadingWins | src/active_context.py:157-180 | what is kept under a title is what stands under the last such heading, real or faked |
| ContextRoundTrip.ItemsRoundTrip | src/active_context.py:57-205 | items on one line each come back stripped and in order, without blanks and the three placeholder texts, whatever the summary contains |
| ContextRoundTrip.PlainItemsReturn | src/active_context.py:57-205 | items on one line each, of which none is blank or one of the three placeholder texts, all come back, stripped and in order |
| ContextRoundTrip.SectionPattern | src/active_context.py:30 | a heading is two hashes, spaces and a title, which is read stripped and folded |
| ContextRoundTrip.BulletPattern | src/active_context.py:31 | a bullet is a dash, spaces and an item, which is read stripped unless it is blank or a placeholder |
| ContextRoundTrip.FieldPattern | src/active_context.py:28-29 | a header field is its label and anything after it, which is read stripped, once |
| ContextRoundTrip.OtherLine | src/active_context.py:164-179 | any other line that is no heading is added to the open section, if there is one |
| ContextRoundTrip.FileLinesMeaning | src/active_context.py:151 | the lines of a file are the parts between line breaks; one at the very end adds none |
| ContextRoundTrip.PrintedFile | src/active_context.py:98-108 | the printed file line by line |
| ContextRoundTrip.PitfallsExactly | src/active_context.py:57-205 | pitfalls come back whole if and only if each, stripped, is its first line stripped and no placeholder; without bullets and headings on other lines they are cut to their first lines |
| ContextRoundTrip.NextStepsExactly | src/active_context.py:57-205 | so do next steps, unless a pitfall contains a heading of that name, and then what is under it is read |
| ContextRoundTrip.FieldsRoundTrip | src/active_context.py:82-102 | with project and time on one line, the time comes back, and the first line of the session |
| ContextRoundTrip.SummaryRoundTripExactly | src/active_context.py:92-102 | the summary comes back stripped if and only if no line of the written body is a section heading, unless an item contains a summary heading, and then what is under it is read |
| ContextRoundTrip.SummaryRoundTrip | src/active_context.py:92-102 | with items on one line each that condition on the body is all |
| AutoFilter.SplitRuns | src/autofilter.py:205-214 | the loop computes the runs |
| AutoFilter.RunsLaws | src/autofilter.py:205-214 | runs are non-empty, of one kind, alternate, and flatten back to the text |
| AutoFilter.SplitUnique | src/autofilter.py:205-214 | there is only one split into maximal runs |
| AutoFilter.FilterPreservingProse | src/autofilter.py:217-236 | prose and blank runs verbatim, others filtered unless the filter would blank them; text without prose filtered whole |
| AutoFilter.FilteredByRuns | src/autofilter.py:229-236 | however a text with prose is split into maximal runs, the result is one part per run: prose and blank runs as they are, the others as the filter returns them unless that is blank |
| AutoFilter.OutputBetweenProse | src/autofilter.py:217-236 | output between prose is replaced by what the filter makes of it, and the prose stays |
| AutoFilter.FilteredWhole | src/autofilter.py:225-228 | text without prose is filtered whole, unless the filter would blank it |
| AutoFilter.ProseSurvives | src/autofilter.py:217-224 | for any filter every prose line is in the result, verbatim and in order |
| AutoFilter.NeverBlanked | src/autofilter.py:227-235 | for any filter text that is not blank does not become blank |
| AutoFilter.IdentityFilter | src/autofilter.py:217-236 | with the identity filter the lines are unchanged |

## Left out

- Key construction and hashing (`make_key`, `make_l1_key`): keys are opaque, and nothing is claimed about their injectivity beyond the condition in `CoherentExactlyWhenSeparate`.
- The embedding tier of the two-level cache, SQLite, files, HTTP, subprocesses and child output streams.
- The moment between a write and the wipe that follows it: the two are one step.
- A stored value that is itself None: the caches return it like a miss, the model returns it as found.
- Negative cache sizes, for which eviction fails on an empty dictionary.
- Cache statistics that round a hit rate.
- Floating-point rounding everywhere; the final rounding of `_suggest_thresholds` is an arbitrary function.
- The embedding step of tag resolution is an arbitrary function whose results are vocabulary values; its memoised vectors are not modelled.
- Case folding is an arbitrary function with the properties stated in `CanonicalTags.Folding`, `CanonicalTags.KeepsCommas` and `ContextRoundTrip.LowersTitles`; whitespace is the six ASCII characters.
- Line separators other than the newline in the context file, such as carriage returns. A log line stands for the row it encodes; fields are strings.
- The regular expressions that decide which lines are prose, and the tokeniser: an arbitrary predicate and token lists.
- The numpy sort and partition are given by what they return; the reference list FAISS returns is an arbitrary set of rows, and the HNSW index is not modelled.
- Question stems, surface forms and canonical answers: arbitrary functions of the text.
- `rrf_fuse` and `mmr_reorder` of the LongMemEval benchmark: they would add only shape facts about their result lists.
- The one-off start-up steps of the supervisor (database, access token, service selection) and its log output.
- Waiting times of the retry loop.
- RunsAreFrequent: assumes a non-negative interval, because with a negative one every iteration runs.
- NoLostTrigger: assumes strictly rising mtimes and no removal of an unseen file, because without them a touch can be lost; SafeExactly needs neither.
