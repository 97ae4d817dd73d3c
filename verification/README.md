# FeatureSignals, verified

A Dafny 4.11 model of the parts of FeatureSignals whose behaviour is hard to see from the code:

- **Flag evaluation** (`Engine`, `Prerequisites`, `Rules`, `Variants`, `MutexGroups`). A flag is answered by
  looking it up, checking its expiry, its state and its mutual exclusion group, then walking its prerequisites
  recursively with one shared set of visited flags, and only then its targeting rules, rollout and variants.
  `Engine` holds the evaluator as imperative code, changing the visited set in place; `Prerequisites` holds the
  recursion over a graph, where its theorems are proved; `EngineTheorems` states them for rulesets, and
  `EngineLimits` gives the inputs on which the engine does something its documentation does not suggest.
  `EngineAnswers` lists the answer, reason and variant of every evaluation case by case.
- **Bucketing** (`Mixing`, `Murmur`, `MurmurVectors`). MurmurHash3 on 32-bit words, and the bucket of a user for a flag.
- **Rate limiting** (`RateLimiter`, `RateLimitSteps`, `RateLimitRuns`, `RateLimitEviction`, `RateLimitConfig`). The
  per-IP sliding window, its cleanup and its eviction, over every run under a clock that never goes back.
- **The update stream** (`ServerSentEvents`). The chunk parser of the Node SDK against the line parser of the Go
  SDK, for server-sent events as in section 9.2 of the WHATWG HTML standard.
- **Money** (`Money`, `Decimal`) and **metrics** (`Metrics`, `MetricsKeys`).

What comes from outside is a parameter: `Runtime` carries the clock reading of one evaluation, the test of one
condition, the JSON decoder and the library sort. The theorems hold for all of them. `sort.Slice` promises only
some permutation in priority order, so that is all that is assumed of it (`Rules.SortsByPriority`); `SortsExist`
shows the assumption can be met. Maps are scanned in an arbitrary order wherever Go ranges over one.

## What was found

- *A prerequisite reached twice counts as a cycle.* The visited set is never unmarked, so a flag with
  prerequisites that is listed along two paths fails its dependents, although the documentation speaks of cycle
  detection. With false defaults where a gate can see them, on flags with prerequisites or a group,
  `EngineTheorems.GateMeaning` reads off the stored lists exactly what passes the gate, and
  `EngineTheorems.PlainRecursionAgrees` says when the result is that of plain recursion: always, except for an open
  flag that requires only what serves on and lists a flag with prerequisites twice. Whatever the defaults, the two
  agree if no flag with prerequisites is listed twice (`EngineTheorems.ListedOnceMeansPlain`).
  `EngineLimits.RepeatedIsNotPlain` gives an acyclic ruleset on which they differ.
- *A failed prerequisite can count as on.* A flag that failed its own gate or lost its group answers with its default
  value, so it lets its dependents through if and only if that is not the boolean false
  (`EngineLimits.FailedPrerequisiteIsItsDefault`, `EngineLimits.ExcludedPrerequisiteIsItsDefault`), even when it
  requires a flag that is off (`EngineLimits.ChainBreaksAtDefault`). With false defaults where a gate can see them
  the gate is sound along whole chains (`EngineTheorems.TransitivePrerequisitesHold`).
- *An expired flag can win its group.* The winner alone can be active, and is not when it has expired
  (`EngineTheorems.OneActiveFlagPerGroup`); if the smallest competing key has expired, there is a user for whom no
  flag of the group is active (`EngineTheorems.ExpiredFlagShutsGroup`).
- *A rollout of 0 is not a small rollout.* It gives everyone the state's default, or a variant, rather than nobody
  (`EngineTheorems.ZeroRolloutIsSpecial`).
- *Weights are summed in 64 bits.* Validation accepts weights that wrap around to 10000; the shares are exact if and
  only if they do not wrap (`Variants.AllocationIsExact`).
- *A segment without match type matches nobody,* though validation accepts it (`Rules.UnsetSegmentMatchesNobody`).
- *A rate of 2^63 becomes a negative limit,* and a limit below 1 makes every request take the front of an empty list
  (`RateLimitConfig.ConfiguredLimitPanics`, `RateLimitSteps.PanicsAlwaysOrNever`).
- *An empty IP string is never evicted,* so the capacity holds for a set of IPs if and only if the empty string is not
  among them or they are no more than maxIPs (`RateLimitRuns.CapacityExactly`).
- *Eviction forgets the limit.* An IP that is evicted starts again with the whole limit, so the limit holds for a set
  of IPs if and only if the table is unbounded or they all fit into it (`RateLimitEviction.LimitHoldsExactly`).
- *The two SDKs differ* on an unterminated last line, behind a byte order mark in front of the stream, which only the
  Node decoder drops, and where an event line that a data line consumes is trimmed to `flag-update` by one of them only
  (`ServerSentEvents.ClientsAgreeExactly`), for which it must hold U+FEFF or U+0085 (`ServerSentEvents.ClientsAgree`).
- *The smallest int64 amount prints unreadably;* all others read back (`Money.MoneyReadsBack`). The comments announce
  Indian grouping; the code groups by three, and so does the model.

The model of the hash is anchored in `MurmurVectors`: published values of MurmurHash3 for a block and for tails of one,
two and three bytes, and one bucket of an 18-byte key.

## Model

| member | source | states |
|---|---|---|
| Engine.Evaluate | server/internal/eval/engine.go:35-37 | a top-level evaluation returns what the graph recursion gives from an empty visited set |
| Engine.EvaluateVisiting | server/internal/eval/engine.go:41-112 | the recursive evaluator, with its set made late and shared in place, has the result, the final visited set and the number of calls of the recursion on the ruleset's graph |
| Engine.CheckPrerequisites | server/internal/eval/engine.go:84-111 | the loop over prerequisites passes, marks and calls exactly as the gate of the graph |
| Engine.ServeFlag | server/internal/eval/engine.go:114-179 | the rule walk with its three percentage branches, the default rollout and the fallthroughs serve the picked rule or the default |
| Engine.SortSlice | server/internal/eval/engine.go:116 | the in-place sort leaves the array in the order the library sort gives |
| Engine.EvaluateAll | server/internal/eval/engine.go:209-215 | every flag of the ruleset, and no other, gets its own top-level result, in any map order |
| EngineTheorems.GateDecides | server/internal/eval/engine.go:78-112 | an open flag answers by its own rules if it is past its gate and PREREQUISITE_FAILED with its default otherwise |
| EngineAnswers.OpenExactly | server/internal/eval/engine.go:42-76 | a flag is open if and only if it is found, unexpired and enabled, and no other enabled flag of its group has a lower bucket for the user, or an equal one and a smaller key |
| EngineAnswers.AnswersBeforeRules | server/internal/eval/engine.go:42-112 | a flag that is missing, not current, excluded or held up by its gate answers NOT_FOUND with nil, or with its own default value DISABLED, MUTUALLY_EXCLUDED or PREREQUISITE_FAILED, in this order |
| EngineAnswers.RuleAnswers | server/internal/eval/engine.go:114-140 | past the gate, the value of the applying rule with the lowest priority number is served, as TARGETED at full percentage and as ROLLOUT below it, by any sort |
| EngineAnswers.DefaultAnswers | server/internal/eval/engine.go:142-206 | where no rule applies, the bucket decides between the state's default, or the flag's where the state has none, and the flag's; at rollout 0 an AB flag serves value and key of the first variant whose running total exceeds the bucket, or of the last |
| EngineTheorems.GateMeaning | server/internal/eval/engine.go:78-112 | with false defaults on flags that have prerequisites or a group, an open flag is past its gate if and only if every flag listed below it in the stored prerequisite lists is open and serves an on value by its own rules, and no flag with prerequisites is listed along two paths |
| EngineTheorems.TransitivePrerequisitesHold | server/internal/eval/engine.go:84-111 | with the same defaults, past the gate every flag listed below, directly or through any others, is active and has a value other than false when evaluated on its own |
| EngineTheorems.TransitivePrerequisitesAreTrue | server/internal/eval/engine.go:100-110 | and true, if the value it serves is a boolean |
| EngineTheorems.CyclesStayShut | server/internal/eval/engine.go:78-92 | with the same defaults, a flag on a cycle of the stored prerequisite lists, or leading to one, never gets past its gate, whether the flags on the way are open or not |
| EngineTheorems.PlainRecursionAgrees | server/internal/eval/engine.go:39-112 | with the same defaults, whenever plain recursion without a visited set ends, the evaluator's result differs if and only if the flag is open, all it requires serves on, and a flag with prerequisites is listed twice |
| EngineTheorems.ListedOnceMeansPlain | server/internal/eval/engine.go:39-112 | whatever the defaults, if no flag with prerequisites is listed along two paths, plain recursion ends with the evaluator's result |
| EngineTheorems.EvaluationIsLinear | server/internal/eval/engine.go:78-92 | on every ruleset one evaluation makes at most 1 plus the sum of all prerequisite list lengths calls |
| EngineTheorems.EvaluationIsLocal | server/internal/eval/engine.go:41-179 | rulesets that agree on the prerequisite closure, the segments and the rivals in its groups give the same result |
| EngineTheorems.UnrelatedFlagIsInvisible | server/internal/eval/engine.go:255-275 | removing a flag that is neither a prerequisite nor a rival changes nothing |
| EngineTheorems.RuleOrderIsInvisible | server/internal/eval/engine.go:114-140 | with distinct priorities, no permutation of the rules and no choice of sort changes any result |
| EngineTheorems.ShadowedRuleIsInvisible | server/internal/eval/engine.go:114-140 | deleting a rule behind one that matches whenever it does with at least its percentage changes no result of any flag for any user |
| EngineTheorems.ActiveMeansOpen | server/internal/eval/engine.go:42-76 | a result other than not found, disabled and excluded is given exactly to open flags |
| EngineTheorems.OneActiveFlagPerGroup | server/internal/eval/engine.go:251-275 | in a group with an enabled flag, the winner alone is active for a user, and it is unless it has expired |
| EngineTheorems.ExpiredFlagShutsGroup | server/internal/eval/engine.go:251-275 | if the smallest key among the competing flags of a group has expired, some user has no active flag in the group |
| EngineTheorems.RolloutOnlyGrows | server/internal/eval/engine.go:142-162 | raising a positive rollout from p to q changes the evaluated result of a user if and only if the flag gets past its gate, no rule serves the user, and the bucket is at least p and below q |
| EngineTheorems.ZeroRolloutIsSpecial | server/internal/eval/engine.go:142-178 | raising a rollout from 0 to p leaves every user's value alone if and only if, for each user it decides for, the value at p is the one at 0; without variants, if and only if the two defaults agree or the rollout decides for nobody with a bucket of p or more |
| EngineTheorems.ZeroRolloutMovesUsers | server/internal/eval/engine.go:142-178 | so for a flag without rules, prerequisites and group, exactly when all 10000 buckets keep their value; without variants, when p is at least 10000 or the two defaults agree |
| EngineLimits.RepeatedPrerequisiteFails | server/internal/eval/engine.go:82-91 | a flag that lists an open flag with prerequisites twice never gets past its gate, whatever the defaults |
| EngineLimits.RepeatedIsNotPlain | server/internal/eval/engine.go:82-91 | an acyclic ruleset where the shared set fails a flag that plain recursion turns on |
| EngineLimits.LeafDecides | server/internal/eval/engine.go:93-110 | at any position of a list whose other members pass, an open prerequisite without prerequisites lets its dependent through if and only if it serves anything but false, for whatever reason; one that is missing, expired or disabled never does |
| EngineLimits.FailedPrerequisiteIsItsDefault | server/internal/eval/engine.go:93-110 | an open flag with a prerequisite that fails its own gate, at any position of a list whose other members pass, gets past its gate if and only if the default of that prerequisite is not the boolean false |
| EngineLimits.ExcludedPrerequisiteIsItsDefault | server/internal/eval/engine.go:68-110 | the same when the prerequisite lost its mutual exclusion group |
| EngineLimits.ChainBreaksAtDefault | server/internal/eval/engine.go:84-111 | a flag whose other prerequisites pass gets past its gate although one requires a flag that is off, if and only if the default of that one is not the boolean false |
| EngineLimits.OrdinaryOthersPass | server/internal/eval/engine.go:84-111 | the other members of a list do pass, wherever they stand, if they are open, without prerequisites, and serve on |
| EngineLimits.FailedPrerequisiteCountsAsOn | server/internal/eval/engine.go:93-110 | such a ruleset: a flag serves true although a flag it requires transitively is disabled |
| Prerequisites.OnExactly | server/internal/eval/engine.go:78-112 | with defaults off, a flag is on for its dependents exactly when it and all it reaches serve on and paths to flags with prerequisites are unique |
| Prerequisites.GatePassesExactly | server/internal/eval/engine.go:84-111 | the same for the gate alone |
| Prerequisites.TransitivePrerequisitesAreOn | server/internal/eval/engine.go:84-111 | on every graph with defaults off, flags reached from a passing gate are on by themselves |
| Prerequisites.CyclesNeverPass | server/internal/eval/engine.go:85-91 | on every graph with defaults off, what reaches a cycle never passes |
| Prerequisites.LoneMeansPlain | server/internal/eval/engine.go:39-112 | with unique paths, plain recursion without a visited set ends with the same result |
| Prerequisites.PlainExactlyWhenLone | server/internal/eval/engine.go:39-112 | with defaults off, where everything reached serves on, plain recursion returns the evaluator's result if and only if paths are unique |
| Prerequisites.PlainAgreesExactly | server/internal/eval/engine.go:39-112 | with defaults off, whenever plain recursion ends the two agree if and only if not everything required serves on, or paths are unique, or failing and serving give the same result |
| Prerequisites.SharingOnlyTurnsOff | server/internal/eval/engine.go:39-112 | with defaults off, sharing never turns on what plain recursion leaves off |
| Prerequisites.PassingListsAreDistinct | server/internal/eval/engine.go:85-91 | whatever the defaults, a list that passes holds no marked flag and no flag with prerequisites twice |
| Prerequisites.EvaluationCost | server/internal/eval/engine.go:78-92 | on every graph, each prerequisite list is walked at most once |
| Prerequisites.EvaluateIsLocal | server/internal/eval/engine.go:84-111 | result, marks and cost depend only on a closed set of flags |
| Rules.MatchConditions | server/internal/eval/rules.go:168-184 | all or any of the conditions; an empty list matches, an unknown match type matches no other |
| Rules.ConditionsCombine | server/internal/eval/rules.go:168-184 | all of a joined list is all of both parts, any of it any of one part; one condition is asked itself under either, and holds under no other type |
| Rules.MatchRule | server/internal/eval/engine.go:218-249 | some known segment, if the rule has any, and the rule's own conditions |
| Rules.SegmentsAreAlternatives | server/internal/eval/engine.go:218-249 | a rule for two lists of segments matches where it matches for one of them; for one segment, where that is known and holds and the rule's conditions do; an unset match type of the rule means all |
| Rules.UnsetSegmentMatchesNobody | server/internal/eval/engine.go:227-241 | a segment with unset match type matches somebody exactly when it has no conditions |
| Rules.PickIsLowest | server/internal/eval/engine.go:114-140 | with any sort, the rule served has the lowest priority number of those that match with bucket below percentage, and there is none exactly when no rule does |
| Rules.PickIgnoresOrder | server/internal/eval/engine.go:114-116 | with distinct priorities, stored order and sort do not matter |
| Rules.ShadowedRuleIsDead | server/internal/eval/engine.go:118-140 | a shadowed rule is never missed |
| Rules.SortsExist | server/internal/eval/engine.go:116 | a sort as assumed exists |
| MutexGroups.WinsMutexGroup | server/internal/eval/engine.go:255-275 | whatever the map order, true exactly when every other enabled flag of the group has a higher bucket, or the same bucket and a larger key |
| Bytes.LessExactly | server/internal/eval/engine.go:265-270 | the order on equal buckets is that of byte strings: behind a common front the first is over or has the smaller byte |
| MutexGroups.ExactlyOneWinner | server/internal/eval/engine.go:251-275 | every group with an enabled flag has exactly one winner for each user |
| MutexGroups.DisablingLoserChangesNothing | server/internal/eval/engine.go:263-266 | disabling a flag that loses leaves every other flag's standing unchanged |
| Variants.ValidateState | server/internal/domain/validate.go:172-204 | no error exactly for accepted states; each error exactly when its check fails and every earlier one passes |
| Variants.EvaluateVariant | server/internal/eval/engine.go:184-206 | the loop over wrapping running totals serves value and key of the first variant whose total exceeds the bucket, or of the last |
| Variants.AssignedIsFirstAbove | server/internal/eval/engine.go:186-205 | that variant is the one assigned, and no other is |
| Variants.BucketsArePartitioned | server/internal/eval/engine.go:186-198 | if the weights sum to 10000, a bucket goes to the one variant whose stretch of running totals holds it |
| Variants.AllocationIsExact | server/internal/domain/validate.go:182-191 | for an accepted state, each variant gets exactly its weight of the 10000 buckets if and only if the true sum is 10000 |
| Variants.VariantIsServed | server/internal/eval/engine.go:181-197 | a variant reaches some user exactly when its weight is positive |
| Variants.WrappedWeightsAreAccepted | server/internal/domain/validate.go:182-191 | an accepted list whose sum wraps, and which gives everyone the first variant |
| Murmur.MurmurHash3 | server/internal/eval/hash.go:6-57 | block loop, tail switch and finalization compute the recursive hash |
| Murmur.GatherTail | server/internal/eval/hash.go:35-46 | the fall-through switch puts byte i of the tail into byte i of the word and zero into the others |
| Murmur.LengthWraps | server/internal/eval/hash.go:53 | the length enters the hash modulo 2^32 |
| Mixing.Fmix32IsBijective | server/internal/eval/hash.go:63-70 | the final mix is a bijection of the 32-bit words, with its inverse |
| Mixing.ScrambleIsBijective | server/internal/eval/hash.go:25-27 | scrambling a word is a bijection |
| Mixing.MixBlockStateIsBijective | server/internal/eval/hash.go:25-31 | a block step can be solved for the state before it |
| Mixing.MixBlockWordIsBijective | server/internal/eval/hash.go:25-31 | and for the word it absorbs |
| Murmur.HashSolvesForBlock | server/internal/eval/hash.go:6-57 | with the rest of the key fixed, exactly one word in a block gives each hash value |
| Murmur.HashSolvesForSeed | server/internal/eval/hash.go:6-57 | exactly one seed gives each hash value |
| Murmur.OneBlockNeverCollides | server/internal/eval/hash.go:18-32 | keys of one length that differ only inside one aligned block never collide |
| Murmur.TailNeverCollides | server/internal/eval/hash.go:34-50 | keys of one length that differ only in the tail never collide |
| Murmur.BucketUser | server/internal/eval/hash.go:75-79 | the hash with seed 0 of flag key, a dot and user key, modulo 10000 |
| Murmur.EveryBucketIsReached | server/internal/eval/hash.go:72-79 | every bucket of every flag has a user in it |
| RateLimiter.RateLimiter.constructor | deploy/global-router/security.go:201-208 | an empty table, valid for a limit of at least 1 |
| RateLimiter.RateLimiter.Allow | deploy/global-router/security.go:212-271 | allowed exactly when fewer than limit of all accepted requests since the last eviction are in the window; remaining is what is left of the limit after this request, reset the end of a window from now, retryAfter the time until the oldest of them leaves it; validity is kept and no window is ever exceeded |
| RateLimiter.RateLimiter.Decide | deploy/global-router/security.go:216-270 | for any limit, it panics exactly when the limit is reached by an empty list, leaving that list behind; otherwise the answer and the new table are those of one step, whatever the map order |
| RateLimiter.RateLimiter.EvictOldest | deploy/global-router/security.go:248-268 | drops empty lists and one IP whose oldest time no other IP's oldest time precedes, unless that IP is the empty string |
| RateLimiter.RateLimiter.RemoveOld | deploy/global-router/security.go:226-235 | the loop over the front of the list trims it |
| RateLimiter.RateLimiter.Cleanup | deploy/global-router/security.go:279-294 | one tick is one cleanup step and keeps validity |
| RateLimiter.RateLimiter.DropStale | deploy/global-router/security.go:283-293 | the scan drops exactly the lists whose oldest time is two windows old, and empty ones |
| RateLimitSteps.PanicsAlwaysOrNever | deploy/global-router/security.go:237-238 | with a limit of at least 1 no request takes the front of an empty list; below 1, starting from an empty table, every request does, and neither it nor a cleanup ever changes that |
| RateLimitRuns.RequestKeepsInv | deploy/global-router/security.go:212-271 | every request keeps the invariant between table and history, and is answered from the full history |
| RateLimitRuns.CleanupKeepsInv | deploy/global-router/security.go:280-294 | every cleanup tick keeps it, dropping nothing that still counts |
| RateLimitRuns.AnswersAreExact | deploy/global-router/security.go:226-246 | in every run each answer is the one that counting the accepted history inside the window gives |
| RateLimitRuns.WindowIsNeverExceeded | deploy/global-router/security.go:226-246 | in every run any closed interval of window length holds at most limit accepted requests of an IP since its last eviction |
| RateLimitRuns.RangesPickExactly | deploy/global-router/security.go:226-246 | the times counted in a window are exactly those accepted in it, each as often as it was accepted |
| RateLimitRuns.StoredListsAreWellFormed | deploy/global-router/security.go:193-199 | every stored list is non-empty, ascending, at most limit long and spans at most one window |
| RateLimitRuns.EvictionIsExact | deploy/global-router/security.go:248-268 | eviction removes exactly one IP with a minimal oldest time |
| RateLimitRuns.CapacityHolds | deploy/global-router/security.go:248-268 | with non-empty IP strings no reachable table exceeds maxIPs |
| RateLimitRuns.KeysHaveAsked | deploy/global-router/security.go:216-224 | in every run the table holds only IPs that have made a request |
| RateLimitRuns.EmptyIPDefeatsCapacity | deploy/global-router/security.go:265-267 | for any distinct IPs with the empty string first, whatever maxIPs is, there is a run with requests from them alone that ends with all of them in the table |
| RateLimitRuns.CapacityExactly | deploy/global-router/security.go:248-268 | all runs with requests from a set of IPs keep the table within maxIPs if and only if the empty string is not in the set or the set is no larger than maxIPs |
| RateLimitEviction.LimitHoldsExactly | deploy/global-router/security.go:226-268 | counting every accepted request, all runs with requests from a set of IPs keep each IP within the limit in every window if and only if maxIPs is not positive or the set is no larger than maxIPs |
| RateLimitEviction.EvictionForgets | deploy/global-router/security.go:248-268 | for any non-empty IP and maxIPs others there is a run in which, at one instant, that IP is allowed once more than the limit |
| RateLimitEviction.NothingEvicted | deploy/global-router/security.go:248-268 | in every run from no more IPs than the table holds, nothing is ever forgotten |
| RateLimitRuns.CleanupIsInvisible | deploy/global-router/security.go:274-299 | the same requests get the same answers with and without cleanup, as long as the limiter without it never evicts |
| RateLimitRuns.RetryAfterIsExact | deploy/global-router/security.go:237-242 | after a denial, requests up to now plus retryAfter are denied and the first one after is allowed; retryAfter is between 0 and the window |
| RateLimitConfig.Atoi | deploy/global-router/router.go:107-120 | the leading digits as a 64-bit number, with zero replaced by 100 |
| RateLimitConfig.KnownCounts | deploy/global-router/router.go:107-120 | "250/min" counts 250; no digits, or zero, count 100 |
| RateLimitConfig.ParseRateLimit | deploy/global-router/router.go:92-105 | the count before the first slash, seconds only for "sec" and "s", 100 a minute without a slash |
| RateLimitConfig.LimitIsPositive | deploy/global-router/router.go:107-120 | the limit is at least 1 exactly when the digits, reduced modulo 2^64, stay below 2^63 |
| RateLimitConfig.HugeLimitIsNegative | deploy/global-router/router.go:107-120 | a count of 2^63 gives the smallest int64 |
| RateLimitConfig.ConfiguredLimitPanics | deploy/global-router/router.go:107-120 | the first request to a limiter built from a configuration panics exactly when the digits of its count, reduced modulo 2^64, reach 2^63 |
| RateLimitConfig.HugeLimitPanics | deploy/global-router/router.go:107-120 | a count of 2^63 is such a number |
| ServerSentEvents.SplitIsInverse | sdks/node/src/client.ts:239-240 | splitting yields newline-free lines and rest that join back to the text |
| ServerSentEvents.SplitResumes | sdks/node/src/client.ts:238-240 | splitting may stop anywhere and resume from the unfinished line |
| ServerSentEvents.NodeConnectSSE | sdks/node/src/client.ts:228-253 | the refreshes depend on the concatenated text alone, a byte order mark in front dropped, not on the chunks |
| ServerSentEvents.NodeLines | sdks/node/src/client.ts:242-251 | the inner loop runs the state machine over the complete lines |
| ServerSentEvents.RefreshesExactly | sdks/go/client.go:401-418 | with either trim, a line refreshes if and only if it is a data line and the last event line before it, with no data line between, names a flag update |
| ServerSentEvents.RefreshesAscend | sdks/go/client.go:401-418 | each such line once, in order |
| ServerSentEvents.UpdateExactly | sdks/node/src/client.ts:243-244 | an event line names a flag update if and only if nothing but white space stands around the name |
| ServerSentEvents.GoConnectSSE | sdks/go/client.go:399-418 | the scan loop runs the state machine over the scanner's tokens |
| ServerSentEvents.CommonSpacesAre | sdks/node/src/client.ts:244 | the 24 characters that both trims remove, one by one |
| ServerSentEvents.UpdateIsHeard | server/internal/sse/server.go:81 | both clients refresh once on an event line of an update, whatever blanks stand around its name, and the data line after it |
| ServerSentEvents.ServerIsHeard | server/internal/sse/server.go:81 | in particular on the two lines as the server writes them |
| ServerSentEvents.GoRefreshesAt | sdks/go/client.go:399-418 | carriage returns never matter to the Go client: it refreshes at the lines split at newlines, and at the unfinished last line if that is the data of a flag update |
| ServerSentEvents.ClientsAgreeExactly | sdks/go/client.go:399-418 | on every text both clients refresh at the same lines if and only if each event line that a data line consumes is a flag update to both or to neither (under both trims or neither, and to the Node client alone behind a byte order mark in front of the text), and the unfinished last line is not itself the data of a flag update |
| ServerSentEvents.ClientsAgree | sdks/go/client.go:399-418 | if no event line holds U+FEFF or U+0085, only a byte order mark in front of a first line that a data line consumes as a flag update, and an unfinished last line, can tell the clients apart; the latter does not exist in text that ends with a newline |
| ServerSentEvents.TrimsDiffer | sdks/node/src/client.ts:244 | U+FEFF and U+0085 are each trimmed by one client only |
| ServerSentEvents.ByteOrderMarkDivides | sdks/go/client.go:404-405 | a text, U+FEFF before the event name, on which only the Node client refreshes |
| ServerSentEvents.LeadingMarkDivides | sdks/node/src/client.ts:229-238 | a text with U+FEFF in front of a plain event line, on which only the Node client refreshes |
| Money.FormatPaiseToINR | server/internal/domain/billing.go:99-114 | for every amount but the smallest, a minus sign if it is negative, the digits of the whole amount with a comma in every fourth place from the right, a point, and the two digits of the rest; for the smallest, as `Money.SmallestPrints` says |
| Money.FormatPaiseToUSD | server/internal/domain/billing.go:118-132 | the same for cents |
| Money.MoneyShape | server/internal/domain/billing.go:99-150 | the printed amount has this shape, and its digits without the commas are those of the whole amount |
| Money.SmallestPrints | server/internal/domain/billing.go:99-179 | the smallest int64 prints with three minus signs |
| Money.KnownAmounts | server/internal/domain/billing.go:97-117 | 199900 prints as 1,999.00 and 2900 as 29.00, as the comments promise |
| Money.FormatIntWithCommas | server/internal/domain/billing.go:134-150 | the right-to-left loop groups the digits in threes from the right |
| Money.PadTwoDigits | server/internal/domain/billing.go:152-157 | for 0 to 99, two digits that read as the number; in general a zero before numbers below 10 |
| Money.IntToStr | server/internal/domain/billing.go:159-179 | the digits of the number, with sign, inside a 32-byte buffer |
| Money.IntStrReads | server/internal/domain/billing.go:159-179 | every int64 but the smallest prints as a sign if it is negative and its digits, with no zero in front |
| Money.FillFromEnd | server/internal/domain/billing.go:167-173 | the digit loop fills the buffer from its end and stops at least 13 bytes before its start |
| Money.CommasEveryThreeDigits | server/internal/domain/billing.go:141-148 | counting from the right, every fourth character is a comma and no other is |
| Money.GroupingLosesNothing | server/internal/domain/billing.go:141-148 | removing the commas gives the digits back |
| Money.MoneyReadsBack | server/internal/domain/billing.go:99-179 | a printed amount reads back as itself if and only if it is not the smallest int64 |
| Money.MoneyIsInjective | server/internal/domain/billing.go:99-179 | different amounts print differently |
| Metrics.Metrics.constructor | deploy/global-router/metrics.go:51-59 | empty maps, nothing counted or recorded |
| Metrics.Metrics.CountRequest | deploy/global-router/metrics.go:68-71 | the first critical section adds one to the counter of method, host and decimal status, changes no other, and keeps the invariant |
| Metrics.Metrics.RecordDuration | deploy/global-router/metrics.go:73-96 | the second critical section, of any call between the two, adds one to the buckets with a bound of at least its duration and to the count, and the duration to both sums, under its own key only, and keeps the invariant |
| Metrics.Metrics.Observe | deploy/global-router/metrics.go:88-95 | the bucket loop turns the histogram of some durations into that of one more |
| Metrics.Metrics.ObserveRequest | deploy/global-router/metrics.go:64-97 | an undisturbed call counts and records itself once |
| Metrics.Metrics.CountersDifferByCallsInFlight | deploy/global-router/metrics.go:64-97 | at every interleaving, a pipe-free method and host have as many more counted than recorded requests as calls between the two sections |
| Metrics.Metrics.BucketsAreCumulative | deploy/global-router/metrics.go:79-95 | each bucket is the number of recorded calls with that key and a duration up to its bound; buckets never decrease nor exceed the count |
| MetricsKeys.SplitMetricsKey | deploy/global-router/metrics.go:230-245 | the index loop gives the parts that join to the key, at most n of them, with pipes in the last alone and only if n are used up |
| MetricsKeys.PartsExactly | deploy/global-router/metrics.go:230-245 | there is one such list of parts |
| MetricsKeys.RequestKeySplits | deploy/global-router/metrics.go:143-148 | a request key splits back into its parts exactly when method and host contain no pipe |
| MetricsKeys.ReqKeyIsOwn | deploy/global-router/metrics.go:68 | no other method, host and status, even with pipes, make the key of a pipe-free method and host |
| MetricsKeys.DurKeyIsOwn | deploy/global-router/metrics.go:74 | the same for the histogram's key |

## Left out

- Single conditions: operators, attribute lookup and regular expressions (`MatchCondition`) are the parameter `matchCondition`; only how conditions combine is modelled.
- JSON: decoding is the parameter `decodeJSON`; of the decoded values only booleans are told apart.
- Time: one evaluation reads the clock once; the source reads it again for each prerequisite, so an expiry that falls inside one evaluation is not modelled.
- Engine.EvaluateVisiting: asks that the flag is not yet in the visited set, which the source's own check before each recursive call guarantees.
- Engine.CheckPrerequisites: the loop is a method of its own; in the source it is inside the evaluator.
- Engine.Evaluate: a nil entry in the flags or states map is not modelled; the source would panic on it.
- EngineTheorems.CyclesStayShut: needs false defaults on flags with prerequisites or a group, since a failed flag with another default counts as on.
- RateLimiter.RateLimiter.Allow: asks for a limit of at least 1, since the source panics otherwise (`Decide` covers every limit), and for a clock that does not go back; the table of lists is a map of sequences, since no list is shared.
- RateLimitRuns.WindowIsNeverExceeded: the history of an IP starts again when it is evicted, as it does in the source; `RateLimitEviction.LimitHoldsExactly` is about the whole history.
- ServerSentEvents.ClientsAgree: bytes that encode no text, chunk boundaries inside a character, the scanner's maximum line length, a failed refresh and a closed connection are not modelled.
- Metrics.Metrics.RecordDuration: counters do not wrap at 64 bits, durations are exact reals, and a histogram is a value replaced in its map.
- The mutexes: each critical section is one atomic step; the Prometheus text output, the other counters and floating-point formatting are not modelled.
- Handlers, proxies, TLS, DNS, health checks, connection limits, SDK caches and polling, the web UI, stores and billing records: plumbing, or outside these sources.
