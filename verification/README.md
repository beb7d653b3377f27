# A verified model of go-chassis

go-chassis is a microservice framework: it decides where a request goes, keeps a cache of service instances, injects
faults, and speaks a framed RPC protocol called highway. This project models the parts of it that carry state from call
to call or run concurrently, and proves what they promise over whole runs. `dafny verify dfyconfig.toml` checks
everything.

## The modules

* **Traffic splitting.** `WeightPool` is the weighted round-robin pool with its in-place hand `(i, cw)`.
  `WeightFairness` proves exact shares for weights of gcd 1, by a closed form for how often each tag has been answered
  since the hand last stood at the top. `WeightScaling` reduces every pool to that case and handles the warm-up pass
  with `cw = 0`. `TrafficSplit` is `FitRate` with the pools of all services, and bounds the drift over a whole run.
  `Gcds` is Euclid's algorithm.
* **Routing.** `GoStrings`, `RouteModel`, `RouteMatch` and `RuleSort` are the string functions, the records, the header
  matcher and the in-place quicksort; `Routing` puts them together as `Route`. `DarkLaunch` translates dark-launch
  policies, `PolicyMeaning` says what a translated RULE policy means for requests, and `WeightConservation` follows the
  weights of a RATE policy through translation, validation and the pool, and `RateTraffic` on to the tags that requests
  get from `Route`.
* **Fault injection.** `FaultInjection` is the package state with its counters and flags, `FaultRuns` what rules deliver
  over interleaved requests, `FaultChange` what becomes of a key whose percentage changes.
* **Instance cache.** `Registry` and `InstanceIndex` are the instances and the index cache, `CacheRefresh` the merge of
  pulled instances, `WatchEvents` the watch handlers, `HealthPipeline` the asynchronous health checker as a state
  machine.
* **Highway and retry.** `FrameCodec` is the frame codec over a stream cut into arbitrary reads, `PendingCalls` the
  protocol of pending calls as a state machine, `MsgIds` the message ID counter, `RetryLoop` the nested retry loop over
  a handler chain.

## Where the code does not do what one would expect

Each of these is a lemma about the code as it is; where a promise fails, the lemma gives the exact condition.

* A rule with delay and abort leaves `abortNeeded` set whenever it injects nothing. An abort rule that starts then does
  not abort its percentage, except at 100 percent with `delayApplied` set too (`FaultRuns.AbortDeliveredIff`); with
  `delayApplied` clear it aborts nothing (`FaultRuns.AbortRuleSilenced`).
* A delay rule that has injected leaves `delayApplied` set (`FaultRuns.AllDelayOnly`), and the next request of a rule
  with delay and abort is then aborted, delayed or not (`FaultRuns.CombinedSchedule`, `FaultRuns.UndelayedAbort`).
* Source tags without a source name or headers are ignored, unless the match is referred to as a template
  (`PolicyMeaning.ReferLikeInlineIff`, `PolicyMeaning.ReferDiffersFromInline`).
* The translator looks for operators in a fixed order, so a regular expression containing `=` is never read as one
  (`DarkLaunch.RegexMisread`).
* The reset of the fault counters on a changed percentage never happens
  (`FaultInjection.FaultInjector.StorePercent`), and a lowered percentage can make every call inject for good
  (`FaultChange.ChangedPercentIff`, `FaultChange.LoweredInjectsAlways`).
* The recorded latest version of a service survives a `Set` in which no version parses above 0.0.0, and every query for
  the latest version then finds nothing (`InstanceIndex.LatestUnranked`), even instances tagged `latest` themselves
  (`InstanceIndex.TaggedLatestHidden`).
* Two instances to be checked can share a key when a field contains a colon, and then one is never checked
  (`HealthPipeline.CollisionLosesCheck`).
* A create event for a cached instance stores a second copy (`WatchEvents.DistinctKeptIff`).
* `GenerateMsgID` can give two concurrent callers the same ID (`MsgIds.ConcurrentCallersShare`), and a pending call
  whose ID is registered again drops out of the table (`PendingCalls.FreshIdExact`).
* An attempt that succeeds without calling back with a response leaves an earlier failure to be reported
  (`RetryLoop.SuccessDeliveredIff`, `RetryLoop.SilentSuccessFails`).
* A response can be written to a call that has already returned with a timeout (`PendingCalls.LateWriteIff`,
  `PendingCalls.TimeoutOverwritten`).
* A frame whose header and body together reach 2^32 bytes is not read back (`FrameCodec.FrameRoundTripIff`).
* A new pool first makes a pass with `cw = 0`, which the algorithm quoted in its source file does not have
  (`WeightScaling.WarmUpPick`).

## Model

| member | source | states |
|---|---|---|
| Gcds.GcdCorrect | core/router/weightpool/weightpool.go:137-142 | gcd divides both arguments and every common divisor divides it |
| WeightPool.NewWheelSound | core/router/weightpool/weightpool.go:76-101 | whatever weights are configured, a new pool has a positive maximum, its gcd is the greatest common divisor of the positive weights and divides the maximum, and weights below 100 are completed to exactly 100 |
| WeightPool.Pool.NewPool | core/router/weightpool/weightpool.go:76-101 | the constructed object holds exactly the rule's tags plus the latest version for the rest, with that gcd and maximum, and its hand at (0, 0) |
| WeightPool.Pool.RefreshGcd | core/router/weightpool/weightpool.go:130-135 | folds one more weight into gcd and maximum |
| WeightPool.Pool.PickOne | core/router/weightpool/weightpool.go:104-128 | answers the tag at the next hit of the hand, moves nothing else, answers nil only for an empty or weightless pool, and needs at most num iterations |
| WeightPool.PickWithinOneRound | core/router/weightpool/weightpool.go:115-127 | a pick stops at the first hit among the turns of the hand, within one round |
| WeightFairness.PickShare | core/router/weightpool/weightpool.go:115-127 | one pick raises the share of the picked tag by one, of no other tag, and each new lap lowers every share by the tag's weight |
| WeightFairness.RunShare | core/router/weightpool/weightpool.go:104-128 | conservation over any run: the share gained plus the laps taken off is how often the tag was answered |
| WeightFairness.FairWindow | core/router/weightpool/weightpool.go:104-128 | for gcd 1, a window as long as the weights' sum answers every tag exactly as often as its weight and returns the hand |
| WeightScaling.ScalePick | core/router/weightpool/weightpool.go:115-127 | a pool picks exactly like the pool of its weights divided by their gcd |
| WeightScaling.WarmUpPick | core/router/weightpool/weightpool.go:115-127 | a pick in the first pass moves to a later tag, or picks as if a lap had just ended |
| WeightScaling.ExactFairness | core/router/weightpool/weightpool.go:104-128 | once past the warm-up, every window of S/g calls answers tag k exactly weight(k)/g times and (i, cw) repeats with that period; a single tag needs no warm-up |
| WeightScaling.WarmUpEnds | core/router/weightpool/weightpool.go:104-128 | a pool of several tags is past the warm-up after at most num calls |
| WeightScaling.PoolFairness | core/router/weightpool/weightpool.go:76-128 | the same from the creation of the pool, for any configured weights and any window from call num on |
| TrafficSplit.SafePool.Set | core/router/weightpool/weightpool.go:33-37 | stores the pool of one service and keeps the others |
| TrafficSplit.SafePool.Reset | core/router/weightpool/weightpool.go:40-44 | one service starts over, the others keep their state |
| TrafficSplit.FitRate | core/router/router.go:68-80 | a whole weight is answered at once, the first request by the first tag, later ones by the service's own pool, which holds the rule's tags plus the latest version and keeps them; no other service's state moves |
| TrafficSplit.CycleDrift | core/router/router.go:68-80 | past the warm-up the answers of a tag never stray from their exact share by more than weight/gcd |
| TrafficSplit.BoundedDrift | core/router/router.go:68-80 | after any number of requests, first answer and warm-up included, the requests for tag k differ from n * weight(k) / 100 by at most num + weight(k)/gcd |
| TrafficSplit.UnitBound | core/router/weightpool/weightpool.go:76-101 | weight(k)/gcd is at most 100/gcd, so the bound above is at most num + 100/gcd |
| RuleSort.ScanDown | core/router/router.go:207-209 | the right scan stops at the first element above the base or where the scans meet, having passed only elements not above it |
| RuleSort.ScanUp | core/router/router.go:210-212 | the left scan stops at the first element below the base or where the scans meet, having passed only elements not below it |
| RuleSort.Partition | core/router/router.go:202-218 | the scans end where the base belongs, having only rearranged the range, and move nothing in a sorted range |
| RuleSort.PlaceBase | core/router/router.go:202-221 | the base ends where nothing before it is lower and nothing after it is higher, and a sorted range is left alone |
| RuleSort.QuickSort | core/router/router.go:196-227 | ends with the same rules in non-increasing precedence, touches nothing outside its range, and leaves a sorted range unchanged |
| RuleSort.SortedParts | core/router/router.go:220-224 | two sorted parts around the moved base are sorted as a whole, and a rearrangement of it |
| Routing.FindMatch | core/router/router.go:57-63 | finds the first matching rule, or that none matches, looking no further than it |
| Routing.SortRules | core/router/router.go:189-193 | the shared slice of a service is sorted in place, and stays as it is once sorted |
| Routing.FirstOfSortedIsBest | core/router/router.go:55-65 | the first match of the sorted rules has the highest precedence of all matching rules |
| Routing.Apply | core/router/router.go:59-60 | the tags of the answered route tag are set, and the service's traffic and pool move by one request |
| Routing.Route | core/router/router.go:55-65 | a best match decides; when nothing matches, neither RouteTags nor any traffic state changes; rules after the first match need not be decidable |
| GoStrings.AtoiDecimal | core/router/router.go:154-157 | reading a decimal number gives it back exactly for 64-bit integers, and the nearest one with an error beyond them |
| GoStrings.AtoiRejects | core/router/router.go:154-157 | a text that is not a number gives 0 and an error |
| GoStrings.SplitJoin | core/router/cse/translate.go:17-19 | splitting at a character undoes joining with it |
| DarkLaunch.GenerateRouteTags | core/router/cse/translate.go:72-89 | one version takes the whole weight, several take the truncated quotient each |
| DarkLaunch.RateRoutes | core/router/cse/translate.go:14-22 | the tags of all items, one after another |
| DarkLaunch.RuleRules | core/router/cse/translate.go:29-66 | one rule of precedence 1 per item, in policy order |
| DarkLaunch.DarkLaunchRule2RouteRule | core/router/cse/translate.go:11-69 | a RATE policy becomes one rule with all tags, a RULE policy one rule per item, anything else nothing; whatever versions the items list, the tags are exactly these, in order, with a share of the item's weight, or of 100 |
| DarkLaunch.VersionsRead | core/router/cse/translate.go:14-19 | the versions a group condition lists, with or without its prefix, are read back in order |
| DarkLaunch.RateTagsRead | core/router/cse/translate.go:13-22 | the tags of a RATE policy are those of its items one after another, each with the versions listed and a share of the weight written |
| DarkLaunch.RuleOfRead | core/router/cse/translate.go:29-66 | the rule of an item sends to exactly the versions listed, one with weight 100 or several sharing it alike |
| DarkLaunch.QuotientShares | core/router/cse/translate.go:81-87 | a shared weight is rounded towards zero |
| DarkLaunch.ConditionRead | core/router/cse/translate.go:37-58 | a condition is read as exactly its header, operator and value iff no symbol of an earlier rank occurs in it, that of its operator nowhere before its place, and nowhere in the value |
| DarkLaunch.ConditionInBoth | core/router/cse/translate.go:33-58 | the condition goes into both header maps and the match asks for nothing else |
| DarkLaunch.WellFormedReadable | core/router/cse/translate.go:37-58 | operands without operator characters are enough for that |
| DarkLaunch.RegexMisread | core/router/cse/translate.go:37-58 | a regular expression containing an equals sign is never read as one |
| DarkLaunch.SymbolFound | core/router/cse/translate.go:37-58 | the operator found is the one written, although some operators contain others |
| PolicyMeaning.FirstKeywordDecides | core/router/router.go:132-186 | of several conditions on one header the first in the matcher's order decides as its operator reads, whatever the others say |
| PolicyMeaning.HeaderMeans | core/router/router.go:132-186 | the conditions on a header hold iff the deciding one does; without a known keyword the header has to be an integer |
| PolicyMeaning.MatchRefuses | core/router/router.go:83-130 | written out or referred to, a match refuses another caller, and for one source tag, header or HTTP header that does not agree |
| PolicyMeaning.MatchAccepts | core/router/router.go:83-130 | it accepts a request that agrees in all of these, and one written out with nothing set accepts all |
| PolicyMeaning.ConditionRefuses | core/router/router.go:110-130 | one condition that does not hold is enough, whichever header map it is in |
| PolicyMeaning.AppliedAgrees | core/router/router.go:55-65 | the rule that Route applies agrees with the request in caller, source tags and all headers |
| PolicyMeaning.ReferLikeInlineIff | core/router/router.go:83-94 | a template referred to and the same match written out decide alike iff it sets a source or headers, or the caller has its source tags |
| PolicyMeaning.ReferDiffersFromInline | core/router/router.go:83-94 | a template with source tags alone that refuses a caller and, written out, accepts it |
| PolicyMeaning.KeywordMatch | core/router/router.go:132-186 | the matcher decides each keyword as its operator reads |
| PolicyMeaning.TranslationMeans | core/router/cse/translate.go:28-67 | a translated rule matches a request iff the condition, read as written, holds of it |
| PolicyMeaning.OrderingOfIntegers | core/router/router.go:154-185 | ordering operators compare the integers the texts denote |
| PolicyMeaning.PolicyOrder | core/router/cse/translate.go:28-67 | Route always answers on a translated RULE policy, leaves the rules in policy order, and applies the rule of item k iff its condition is the first that holds |
| PolicyMeaning.PolicyMatches | core/router/cse/translate.go:28-67 | the first match among the translated rules is the first condition that holds |
| WeightConservation.ValidateRule | core/router/router_config.go:45-63 | valid iff no rule of any service weighs more than 100 |
| WeightConservation.GroupLoss | core/router/cse/translate.go:72-89 | a group loses less than one unit per version, and its versions weigh the same |
| WeightConservation.RateLoss | core/router/cse/translate.go:13-27 | a whole policy loses less than one unit per version, and no tag weighs less than nothing |
| WeightConservation.WeightConserved | core/router/cse/translate.go:13-27 | a policy of at most 100 still validates after translation, and its pool totals exactly 100, the latest version taking the rest |
| WeightConservation.RateDelivered | core/router/router.go:68-80 | every version is answered its translated percentage up to the drift bound, and the latest version the rest, after any number of requests |
| RateTraffic.RouteAll | core/router/router.go:55-80 | the calls of Route on a service with one rule that matches everything set, in turn, the tags of the pool entries that the traffic split answers |
| RateTraffic.ToldAsWritten | core/router/router_config.go:94-106 | a request is told the tags and label of its pool entry, and the entry added for the rest is the latest version |
| RateTraffic.RequestsReceive | core/router/router.go:55-80 | end to end: of n requests to a service with a RATE policy, those told to go to a version, or to the latest one, are its translated percentage of n up to the drift bound |
| FaultInjection.TickOnSchedule | core/fault/fault_injection.go:102-161 | call n + 1 injects iff floor((n+1)p/100) exceeds floor(np/100), and the three counters stay on schedule |
| FaultInjection.ExactSchedule | core/fault/fault_injection.go:102-161 | however keys interleave, a key called N times with percentage p has had exactly floor(Np/100) faults |
| FaultInjection.CheckAbort | core/fault/fault_injection.go:69-82 | an abort part is valid iff its status is in 100..600 and its percentage in 0..100 |
| FaultInjection.CheckDelay | core/fault/fault_injection.go:85-99 | a delay part is valid iff its percentage is in 0..100 and it lasts at least a millisecond |
| FaultInjection.UnsetRule | core/fault/fault_injection.go:28-66 | a rule with neither part set does nothing |
| FaultInjection.InvalidDelayRefused | core/fault/fault_injection.go:29-32 | a delay out of range is an error and counts for nothing |
| FaultInjection.InvalidAbortRefused | core/fault/fault_injection.go:44-47 | so is an abort out of range, after the delay part |
| FaultInjection.FaultInjector.ApplyFaultInjection | core/fault/fault_injection.go:102-161 | moves the counters of its key by one tick and no other key's, reports an injected abort, and records an injected delay |
| FaultInjection.FaultInjector.StorePercent | core/fault/fault_injection.go:104-110 | the stored percentage always equals the configured one when they are compared, so the counters are not reset |
| FaultInjection.FaultInjector.ResetIf | core/fault/fault_injection.go:107-110 | a changed percentage resets the counters of its key and no other's |
| FaultInjection.FaultInjector.Decide | core/fault/fault_injection.go:137-160 | injects when the percentage has just caught up with the counted failures, or gone past them |
| FaultInjection.FaultInjector.InjectFault | core/fault/fault_injection.go:182-193 | a delay sets its flag, an abort is an error |
| FaultInjection.FaultInjector.ValidateAndApplyFault | core/fault/fault_injection.go:28-66 | one request through both parts of a rule, with the process-wide flags |
| FaultRuns.CombinedCall | core/fault/fault_injection.go:28-66 | a combined rule answers the abort error iff its delay was injected now or delayApplied was left set, and clears delayApplied |
| FaultRuns.CombinedSchedule | core/fault/fault_injection.go:28-66 | a service with both parts has its delayed requests aborted and besides them exactly those that find delayApplied left set, whatever rules other services have |
| FaultRuns.DelaySchedule | core/fault/fault_injection.go:28-66 | a service whose requests have a valid delay of percentage p, with or without abort, has exactly floor(Np/100) of N delayed, whatever rules other services have and whatever the flags are |
| FaultRuns.DelayAsConfigured | core/fault/fault_injection.go:85-99 | with the percentage as written in the rule: floor(Np/100) of N are delayed, and all of them when it is left at 0 |
| FaultRuns.AbortSchedule | core/fault/fault_injection.go:44-63 | an abort rule keeps the exact schedule over its requests that find abortNeeded clear, and of the others aborts exactly those that find both flags set, whatever rules other services have |
| FaultRuns.AllCombined | core/fault/fault_injection.go:28-66 | when all rules have both parts, delayApplied is clear between requests and only the first request of the run can be aborted undelayed |
| FaultRuns.AllDelayOnly | core/fault/fault_injection.go:28-42 | when all rules only delay, delayApplied stays set once a delay was injected |
| FaultRuns.AllAbortOnly | core/fault/fault_injection.go:44-63 | when all rules only abort, all requests are counted if abortNeeded was clear, all but the first if both flags were set, and none otherwise |
| FaultRuns.AbortFlags | core/fault/fault_injection.go:44-63 | an abort rule clears both flags with its first request if both are set, and otherwise leaves them alone |
| FaultRuns.AbortedByFlags | core/fault/fault_injection.go:44-63 | how many of n requests an abort rule aborts, for each setting of the flags |
| FaultRuns.AbortAsConfigured | core/fault/fault_injection.go:69-82 | the same for aborts when abortNeeded is clear |
| FaultRuns.AbortDeliveredIff | core/fault/fault_injection.go:44-63 | from any state, an abort rule aborts its percentage of every number of requests iff abortNeeded is clear when it starts, or delayApplied is set too and the percentage is 100 |
| FaultRuns.AbortRuleSilenced | core/fault/fault_injection.go:28-63 | from the initial state, one request of another service under a combined rule keeps an abort rule from ever aborting |
| FaultRuns.UndelayedAbort | core/fault/fault_injection.go:28-56 | from the initial state, a delay of another service makes a combined rule abort a request it did not delay |
| FaultChange.ChangedPercentIff | core/fault/fault_injection.go:102-161 | after any history of percentages and any interleaving, a new percentage is delivered from some call on iff the failures counted are at most 2 or at most its quota; otherwise every call injects for good once that quota is above 1 |
| FaultChange.OneChangeIff | core/fault/fault_injection.go:102-161 | after one percentage p only, the failures counted are its quota |
| FaultChange.AnyHistory | core/fault/fault_injection.go:102-161 | whatever its percentages were, a key has at least one failure counted and no more than calls |
| FaultChange.Recovers | core/fault/fault_injection.go:137-160 | failures at most 2 or at most the quota come to equal it, and the key is then on schedule |
| FaultChange.RunsAway | core/fault/fault_injection.go:137-160 | failures ahead of the quota and of 2 stay ahead, so every call injects |
| FaultChange.LoweredInjectsAlways | core/fault/fault_injection.go:102-161 | after 100 calls at 50 percent, a change to 10 percent makes every call inject |
| Registry.BestIsFirstMaximum | core/registry/cache_index.go:46-57 | Set's loop records a version iff one is above 0.0.0, and then that of the first instance of maximal version |
| InstanceIndex.IndexCache.Set | core/registry/cache_index.go:45-75 | stores the slice, and the latest version if one was found |
| InstanceIndex.IndexCache.Delete | core/registry/cache_index.go:39-42 | forgets the slice but not the latest version |
| InstanceIndex.IndexCache.Get | core/registry/cache_index.go:78-112 | answers the filtered instances, rewriting "latest" in the caller's tags |
| InstanceIndex.IndexCache.SetTagsBeforeQuery | core/registry/cache_index.go:113-118 | replaces "latest" by the recorded version when there is one |
| InstanceIndex.RunState | core/registry/cache_index.go:39-75 | over every run, what is cached is what the last Set or Delete left |
| InstanceIndex.GetIsFilter | core/registry/cache_index.go:78-112 | over every run, a query without "latest" is the order-preserving filter of the last Set |
| InstanceIndex.GetSelects | core/registry/cache_index.go:78-112 | over every run, a query answers exactly the instances of the last Set that carry every queried tag with its value, in order, and fails iff there are none |
| InstanceIndex.FilterSelects | core/registry/struct.go:51-58 | the filter takes the instances carrying all tags, at increasing places, and skips none |
| InstanceIndex.LatestIsFirstMaximum | core/registry/cache_index.go:45-118 | after a Set with a version above 0.0.0, "latest" means the version of its first instance of maximal version |
| InstanceIndex.LatestSelects | core/registry/cache_index.go:45-118 | so a query for the latest version selects by the other tags and by that version |
| InstanceIndex.HasVersion | core/registry/struct.go:51-58 | querying with a version asks for the other tags and that version |
| InstanceIndex.LatestIsCurrentIff | core/registry/cache_index.go:45-118 | a query for the latest version answers as if the last Set had been the only one iff that has a version above 0.0.0, none was recorded before, or no instance is literally tagged latest |
| InstanceIndex.LatestUnranked | core/registry/cache_index.go:45-118 | when the last Set has no version above 0.0.0, a query for the latest version finds nothing if an earlier Set had one, and otherwise the instances literally tagged latest |
| InstanceIndex.TaggedLatestHidden | core/registry/cache_index.go:45-118 | an instance tagged latest is found, but no longer after an instance of version 1.0 |
| CacheRefresh.KeepOld | core/registry/healthz.go:191-205 | whatever the order of the map, exactly the instances still up, or neither up nor down and taken by the health checker, are kept, and only open cases are offered to it, once each |
| CacheRefresh.OfferedAs | core/registry/healthz.go:201-204 | an instance is offered with its service and the version and application of its own metadata |
| CacheRefresh.AddNew | core/registry/healthz.go:207-213 | the pulled instances the cache does not know, in order |
| CacheRefresh.RefreshCache | core/registry/healthz.go:168-223 | an absent or nil entry takes the pulled instances; otherwise the merge is stored, or the key deleted when it is empty |
| CacheRefresh.MergeRefinesSets | core/registry/healthz.go:168-223 | an ID is cached afterwards iff pulled, or cached, not down and taken; no ID twice iff none unknown to the cache was pulled twice; known IDs keep their cached record |
| WatchEvents.Watch | core/registry/servicecenter/cache.go:304-325 | one event changes only its own service, and only if that is cached; a delete taken by the health checker changes nothing |
| WatchEvents.CreateAction | core/registry/servicecenter/cache.go:328-343 | appends the record to a cached service |
| WatchEvents.DeleteAction | core/registry/servicecenter/cache.go:346-366 | hands the instance to the health checker or removes all its copies |
| WatchEvents.UpdateAction | core/registry/servicecenter/cache.go:369-401 | replaces the last copy, or appends the record |
| WatchEvents.FindLast | core/registry/servicecenter/cache.go:381-388 | finds the last copy |
| WatchEvents.HandleCopy | core/registry/servicecenter/cache.go:328-401 | what each event does to the last copy of any ID |
| WatchEvents.LastEventDecides | core/registry/servicecenter/cache.go:304-401 | after any events of any services, an ID is cached iff its last deciding event left it up or it had none and was cached, and its last copy is that event's record |
| WatchEvents.LastStatusDecides | core/registry/servicecenter/cache.go:304-401 | after any events, from the status and action of the last event about an ID alone: not up or deleted, it is gone; created or updated while up, it is cached as sent with the event's application; taken over, or any other event, it is as before |
| WatchEvents.EffectByStatus | core/registry/servicecenter/cache.go:304-325 | what one event does to its own instance, from status and action |
| WatchEvents.CachedIff | core/registry/servicecenter/cache.go:304-401 | there is a last record of an ID iff the ID is cached |
| WatchEvents.DistinctKeptIff | core/registry/servicecenter/cache.go:328-401 | IDs stay distinct except after a create for a cached ID |
| HealthPipeline.KeyIdentifies | core/registry/healthz.go:36-38 | an instance with colon-free fields shares its key with no other identity |
| HealthPipeline.KeySpelled | core/registry/healthz.go:36-38 | service, version, application and ID with colons between them |
| HealthPipeline.RemoveFromCache | core/registry/healthz.go:137-151 | removes all copies of one instance from one service, leaving nil when none is left |
| HealthPipeline.InvNext | core/registry/healthz.go:66-151 | every step of any goroutine keeps the pipeline accounted for: it holds only added instances, under their own keys, and results only of rounds of checks begun |
| HealthPipeline.ChannelsBounded | core/registry/healthz.go:56-72 | each channel holds at most 1000 entries, and an instance can be added iff the first has room |
| HealthPipeline.NoLostChecks | core/registry/healthz.go:66-151 | for every single Add, whatever ran before and after it: an instance with a key of its own is still to be checked, or is being checked or answered in a round begun after that Add |
| HealthPipeline.OnlyFailuresRemove | core/registry/healthz.go:94-151 | after any run, an ID leaves the cache by a step of the checker only when a failed check of that ID and service, of an added instance, is received |
| HealthPipeline.RemovalExact | core/registry/healthz.go:100-111 | a result removes from the cache exactly the failed instance of its service, or nothing |
| HealthPipeline.WorkDecreases | core/registry/healthz.go:75-112 | every step of the checker uses up work |
| HealthPipeline.NeverStuck | core/registry/healthz.go:75-112 | the checker can always move while there is something in it, however full its channels are |
| HealthPipeline.EveryCheckIsAnswered | core/registry/healthz.go:75-135 | whenever the checker has nothing left to do, after any run, every Add with a key of its own has been answered in a round begun after it |
| HealthPipeline.ComesToRest | core/registry/healthz.go:75-135 | no run of the checker's own steps is longer than the work there is |
| HealthPipeline.CanRest | core/registry/healthz.go:75-135 | from every state the checker can run until it has nothing left to do |
| HealthPipeline.AtRestIffDrained | core/registry/healthz.go:75-112 | it has nothing left to do iff it is empty |
| HealthPipeline.CollisionLosesCheck | core/registry/healthz.go:75-92 | an added instance whose key another identity shares can be lost unchecked by a checker at rest |
| HealthPipeline.CollidingPair | core/registry/healthz.go:36-38 | two identities that share a key |
| FrameCodec.BigEndianRoundTrip | client/highway/highway_msgobj.go:77-99 | a number written big-endian in enough bytes is read back |
| FrameCodec.SerializeRoundTrip | client/highway/highway_msgobj.go:77-99 | a serialized frame head is read back |
| FrameCodec.HeadBytes | client/highway/highway_msgobj.go:77-84 | the head byte by byte: CSE.TCP, then ID, total and header length, most significant byte first |
| FrameCodec.HeadRefusedIff | client/highway/highway_msgobj.go:86-99 | a head is refused iff it is too short or does not begin with CSE.TCP in capital or small letters |
| FrameCodec.ReadFailsIff | client/highway/highway_msgobj.go:180-217 | reading a frame fails iff the stream ends within it or its head is refused, and what is left of the stream then |
| FrameCodec.Fill | client/highway/highway_msgobj.go:186-196 | a read loop fills its buffer with exactly the next bytes, or fails at the end of the stream, however the reads are cut |
| FrameCodec.DeSerializeFrame | client/highway/highway_msgobj.go:180-217 | the frame read, and what is left, depend on the bytes alone |
| FrameCodec.MsgRecvLoop | client/highway/client_conn.go:85-96 | the frames received are those of the stream up to the first failure |
| FrameCodec.FrameRoundTripIff | client/highway/highway_msgobj.go:117-217 | an encoded message is read back iff header and body together stay below 2^32 bytes |
| FrameCodec.StreamRoundTrip | client/highway/highway_msgobj.go:117-217 | any sequence of fitting messages is read back in order, and reading goes on with what follows |
| FrameCodec.FramesCut | client/highway/highway_msgobj.go:220-244 | cutting a payload at HeaderLen gives back header and body |
| FrameCodec.SerializeReq | client/highway/highway_msgobj.go:117-143 | writes one frame, or nothing on a marshalling error |
| FrameCodec.SerializeRsp | client/highway/highway_msgobj.go:146-177 | writes one frame, without a body when there is no result, or nothing on a marshalling error |
| PendingCalls.InvNext | client/highway/highway_base_client.go:163-283 | every step of callers, receivers and close keeps the protocol's invariants |
| PendingCalls.CallsAreSafe | client/highway/highway_base_client.go:163-283 | over every interleaving with distinct IDs in flight: channels close at most once, a returned call's exactly once; answers come from frames with the call's ID; the table holds no returned call |
| PendingCalls.ResponseFindsItsCall | client/highway/client_conn.go:98-106 | a response to a registered, unsignalled call always finds it |
| PendingCalls.AnswerReturned | client/highway/highway_base_client.go:246-262 | over every such interleaving, a response arriving for a waiting call can be delivered, and the call then returns it, or an error unless its status is 200, with its ID out of the table |
| PendingCalls.LateWriteIff | client/highway/client_conn.go:98-106 | the response of a call that has returned can still change iff a receiver found the call earlier and has yet to write a different one |
| PendingCalls.TimeoutOverwritten | client/highway/client_conn.go:98-106 | a run after which a call that timed out gets a response written |
| PendingCalls.DeliversOnlyItsCall | client/highway/client_conn.go:98-106 | delivering a response touches only the call with its ID |
| PendingCalls.CloseSignalsAll | client/highway/highway_base_client.go:163-175 | close signals every call registered when it took the lock, and leaves an empty table |
| PendingCalls.CloseSignalsOnlyRegistered | client/highway/highway_base_client.go:163-175 | close signals only calls that are in the table |
| PendingCalls.ClosedForGood | client/highway/highway_base_client.go:163-175 | a closed client stays closed and is not closed again |
| PendingCalls.FreshIdExact | client/highway/highway_base_client.go:188-194 | registering an ID keeps all unsignalled calls reachable iff none of them has it |
| MsgIds.SameIdIff | client/highway/highway_msgobj.go:37-42 | two callers get the same ID iff a multiple of 2^64 increments separates their reads |
| MsgIds.ConcurrentCallersShare | client/highway/highway_msgobj.go:37-42 | two concurrent callers can share an ID |
| MsgIds.SerialCallersDistinct | client/highway/highway_msgobj.go:37-42 | callers not interrupted between increment and read get distinct IDs |
| RetryLoop.Chain.Next | core/handler/handler_chain.go:32-43 | past the last handler the chain itself answers success; the log gets the endpoint and the index found |
| RetryLoop.Operation | core/handler/loadbalance_handler.go:120-137 | an attempt fails iff its last response carries an error, and keeps the last response seen; it reaches the chain with its endpoint and the original index |
| RetryLoop.RetryOnSame | core/handler/loadbalance_handler.go:117-140 | retries one endpoint until the first success or its limit |
| RetryLoop.HandleWithRetry | core/handler/loadbalance_handler.go:104-146 | the callback is called once; the calls the chain saw are those up to the unique stopping point, in order, each with its endpoint and from the same handler index; delivers the last response unless endpoint selection fails |
| RetryLoop.StopsOnce | core/handler/loadbalance_handler.go:104-146 | the stopping point, at most (retryOnNext+1)(retryOnSame+1) attempts, is unique |
| RetryLoop.StopsIff | core/handler/loadbalance_handler.go:104-146 | the stopping point spelled out: all but the last attempt failed, and the last succeeded or the budget or the endpoints are at an end |
| RetryLoop.FailsIff | core/handler/loadbalance_handler.go:128-137 | an attempt fails iff the last response it calls back with carries an error |
| RetryLoop.EndpointInRound | core/handler/loadbalance_handler.go:109-140 | the attempts of a round are made on the endpoint selected for it |
| RetryLoop.ExhaustedDelivers | core/handler/loadbalance_handler.go:142-145 | when the budget is used up the caller gets the last response of the last attempt, which carries an error |
| RetryLoop.SelectionErrorDelivered | core/handler/loadbalance_handler.go:111-116 | when it stops earlier without success the caller gets the selection error |
| RetryLoop.PastLastHandler | core/handler/handler_chain.go:32-43 | past the last handler the first attempt succeeds with an empty response |
| RetryLoop.SuccessDeliveredIff | core/handler/loadbalance_handler.go:128-145 | a final success is reported as one iff that attempt answered with a response or was the first |
| RetryLoop.SilentSuccessFails | core/handler/loadbalance_handler.go:128-145 | a failed attempt followed by one that succeeds without calling back is reported as the failure |

## Left out

- WeightConservation.ValidateRule: does not write the tags' labels, which depend on sorting tag names.
- TrafficSplit.FitRate: requests are one after another; the code takes no lock over looking up and storing a new pool.
- FaultInjection.CheckAbort: the default percentage is not written back into the rule but read through Effective; each request has its own copy of the rule.
- FaultInjection.CheckDelay: the same.
- FaultInjection.FaultInjector.ValidateAndApplyFault: requests are one after another; the flags are unguarded globals.
- FaultRuns.CombinedSchedule: a service that itself changes between kinds of rule is described only call by call.
- Routing.Route: services with several weighted rules share one pool, for which no share is claimed.
- Routing.SortRules: InitRouteRuleByKey, which does nothing in the repository's router, is not represented.
- RouteMatch: regular expressions are a parameter; an invalid one, a missing template or a missing source panics in the code and is excluded.
- GoStrings: strings are sequences of characters, where Go counts bytes; all separators involved are ASCII.
- Registry.BestIsFirstMaximum: version parsing is a ranking parameter into the reals, with 0.0.0 at 0.
- InstanceIndex.IndexCache.Get: the indexed cache, which nothing writes, is not represented.
- WatchEvents.UpdateAction: slices are values, so readers that share a slice with the cache do not see it change.
- CacheRefresh.RefreshCache: reading and then writing the cache is one step, as in the watch handlers; the code takes no lock.
- HealthPipeline.NoLostChecks: the same atomicity; the outcome of a health check is arbitrary, and time is not represented.
- FrameCodec.DeSerializeFrame: headers and bodies are opaque bytes; protobuf, sockets and logging are not represented.
- PendingCalls.CallsAreSafe: choosing and reopening connections is not represented; writing a response is one step.
- RetryLoop.HandleWithRetry: retry counts are not negative, the back-off never gives up, as every policy in pkg/backoff does not, and waiting is not represented.
- Weights and counters are unbounded integers; 64-bit overflow of sums is not represented.
- Circuit breaking, rate limiting, configuration, TLS, tracing, metrics, sessions, heartbeats, servers and the load-balancing strategies are not modelled; most would only add one-branch facts.
