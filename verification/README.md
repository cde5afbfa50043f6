# A verified model of the gateway's stateful engines

The gateway stands between agent-to-agent clients and backend agents. This
project models the parts of it that keep state while requests, timers and
background goroutines interleave, and proves what holds over whole runs. HTTP,
files, clocks and the network appear only as arbitrary inputs of those parts.

| file | models |
|---|---|
| `StreamProtocol`, `StreamTheorems`, `StreamDrainLimits` | stream slots as a step machine: any number of threads, one step per atomic operation |
| `StreamManager` | the manager object, its methods tied to the steps of that machine |
| `StreamProxy` | the SSE proxy: reader goroutine, channel, select loop, stream slot, and what the client parses |
| `EventStream` | the event-stream line parser and forwarder of the gRPC server |
| `NonceStore`, `ReplayDetector` | the nonce store with background cleanup, and how often one signed request can pass |
| `RateLimiter` | the limiter map with eviction, keyed by address or by subject |
| `AgentCards`, `CardLifecycle` | change detection, and polling and approval in every interleaving |
| `PolicyEngine` | matching, priority order, copy-and-swap updates |
| `ConfigDiff`, `ConfigReload` | the diff as a patch, reloading, and the debounced watch loop |
| `LimitedListener` | the connection semaphore |
| `Decimal` | the two decimal printers and the epoch reader |

Code that changes state is a class or a method with loops, proved against a
function of the old state; the theorems about runs are about those functions.
Times are integer nanoseconds.

Results that contradict a comment, a document or a first reading of the code:

- "No streams after `DrainAll`" is false in general: the flag is tested before
  the increment. `StreamAfterDrain` is the run, `StreamsAppearExactlyWhen` the
  exact condition, `DrainSafety` what holds instead.
- A comment on `matchIPs` says that an excluded address fails at once. An earlier
  entry that allows it wins: `ExclusionCanFail`; `ExclusionHoldsExactlyWhenFirst`
  says when.
- `Reload` logs changes that need a restart as ignored, yet it stores the whole
  new configuration. An edit of the policies alone is reported as a success and
  dropped, because `Diff` does not compare them: `EditOfRestIsDropped`, and
  `LoadedInForceExactlyWhen` over any series of reloads.
- `intToString` is documented for non-negative numbers. It is right for negative
  ones too, except the least 64-bit number, which it prints as `-`.
- "The latest approval wins" is false: `StaleApprovalCanWin` overwrites it with an
  older one. `LatestApprovalWins` says on which runs it holds, and
  `ApprovalWinsExactlyWhen` when an approval that begins is sure to win.
- The replay detector reads the clock three times, so a late admission need not
  be the last: `LateRepeatExactlyWhen`. The bound 2 + floor(clockSkew / window) on
  the passes of one pair holds with requests delayed up to d between their readings
  if and only if it times (window - d) exceeds window + clockSkew:
  `SingleBoundExactlyWhen`; `AdmissionsAtMostExactlyWhen` is the exact bound for
  every d.
- A gRPC stream whose read fails can end with a truncated message:
  `CutDataIsFlushed`, and `CutIsPrefixExactlyWhen` for the exact condition.
- Eviction of rate limiters is visible unless a whole burst refills within the
  cleanup interval: `EvictionInvisibleExactlyWhen`.
- A backend line holding only a carriage return splits an event for the client:
  `LoneCarriageReturnSplits`.
- The timestamp argument of `CheckAndStore` is never used; the model has none.

## Model

| member | source | states |
|---|---|---|
| StreamProtocol.StepKeepsInv | internal/proxy/streams.go:29-105 | every atomic step of any thread keeps: each counter equals the number of slots held, one counter per agent, at most one scan, threads use their own agent's counter; counters are created and never replaced |
| StreamProtocol.ActMovesOneSlot | internal/proxy/streams.go:43-63 | a step moves an agent's counter by exactly the change in that agent's slots |
| StreamProtocol.HoldersAfter | internal/proxy/streams.go:49-62 | the set of slot holders grows or shrinks by the one thread that moved |
| StreamTheorems.CounterCountsSlots | internal/proxy/streams.go:34-63 | in every interleaving from the start a counter is the number of slots held, and an agent without a counter has none |
| StreamTheorems.OneCounterPerAgent | internal/proxy/streams.go:34-41 | lazy creation gives an agent one counter for the whole run, and no two agents share one |
| StreamTheorems.LimitNeverExceeded | internal/proxy/streams.go:43-53 | if no caller asks for more than a bound, no interleaving holds more slots than that bound |
| StreamTheorems.AfterFlag | internal/proxy/streams.go:30-32 | once the flag is set nobody enters an acquire: a thread in flight or active later was in flight or active then |
| StreamTheorems.DrainsUntil | internal/proxy/streams.go:84-94 | on every run a thread stays in its drain, polling and scanning, exactly until a scan of its own adds up to zero or its context is canceled |
| StreamTheorems.BlockedExactlyWhen | internal/proxy/streams.go:34-63 | a thread has no move exactly while a scan holds the mutex it needs: to look up its counter or to release; a drain begins its next scan exactly when none does |
| StreamTheorems.ScanReadZero | internal/proxy/streams.go:97-105 | a scan that adds up to zero read zero from each counter it visited, each at a step of that scan, although counters move meanwhile |
| StreamTheorems.ScanSawNoSlots | internal/proxy/streams.go:78-105 | a drain that returned nil saw, for each agent, a moment without slots inside the very scan that returned nil: its read of that counter, or its end when there was none yet |
| StreamTheorems.DrainSafety | internal/proxy/streams.go:78-95 | a stream active after a nil return belongs to an acquirer that was past the draining check when the flag was set and had not done its CAS when the scan that returned nil read the counter |
| StreamTheorems.DrainLeavesOnlyLateAcquirers | internal/proxy/streams.go:78-95 | streams after a nil return are at most the acquirers in flight when the flag was set; with none in flight every counter is zero for ever |
| StreamTheorems.RetryStep | internal/proxy/streams.go:43-53 | a failed CAS is paid for by a change another thread made since the load |
| StreamTheorems.FailuresBoundedByProgress | internal/proxy/streams.go:43-53 | while a call is in flight its failed attempts never exceed the changes others made to that counter, and its own moves past the draining check are at most 2 + twice those |
| StreamTheorems.CallReturnsWithin | internal/proxy/streams.go:29-54 | so the call returns, with a slot or without, within 3 + twice those of its own moves past the draining check |
| StreamDrainLimits.StreamsAppearExactlyWhen | internal/proxy/streams.go:29-95 | once draining, some interleaving shows an active stream if and only if one is active now or an acquirer with a positive limit is past the check |
| StreamDrainLimits.LateAcquirerGetsSlot | internal/proxy/streams.go:34-53 | such an acquirer, left alone with no slot held, gets its slot |
| StreamDrainLimits.FinishScan | internal/proxy/streams.go:97-105 | a scan in progress can always be finished, which frees the mutex and changes nothing else |
| StreamDrainLimits.RunKeepsQuiet | internal/proxy/streams.go:29-63 | while draining, with no stream and no late acquirer, there never is one again |
| StreamDrainLimits.StreamAfterDrain | internal/proxy/streams.go:29-53 | a run in which a complete drain returns nil and a stream can still appear |
| StreamManagers.Contend | internal/proxy/streams.go:43-53 | whatever others add to the counter before each load and each CAS, a value restored in between included, an acquire that succeeds adds exactly one to what they did and ends within the limit; one that fails adds nothing and leaves the counter at the limit or above |
| StreamManagers.AcquiredIsProtocolSteps | internal/proxy/streams.go:29-54 | an uninterrupted call of the object is the protocol's own steps of one thread |
| StreamManagers.ReleasedIsProtocolSteps | internal/proxy/streams.go:57-63 | the same for a release |
| StreamManagers.ScanIsProtocolSteps | internal/proxy/streams.go:78-105 | the object's scan, in any order of reading, is the protocol's steps: it adds up all counts, leaves the drain when that is zero, polls again when it is not, and changes nothing |
| StreamManagers.ReleaseUndoesAcquire | internal/proxy/streams.go:29-63 | a release undoes an acquire, leaving just what other threads did, and touches no other agent |
| StreamManagers.StreamManager.AcquireStream | internal/proxy/streams.go:29-54 | the CAS loop on the shared counters refines `Acquired` with other threads moving the counter before every load and every CAS |
| StreamManagers.StreamManager.ReleaseStream | internal/proxy/streams.go:57-63 | decrements the agent's counter if there is one, and changes nothing else |
| StreamManagers.StreamManager.TotalStreams | internal/proxy/streams.go:97-105 | in any map order the sum of all agents' counts, negative ones included |
| StreamManagers.TotalZeroExactlyWhen | internal/proxy/streams.go:97-105 | where no count is negative that sum is zero if and only if every agent's count is |
| StreamManagers.StreamManager.DrainAll | internal/proxy/streams.go:78-95 | sets the flag and polls, with streams released by others before each tick: returns after the poll that finds none or when canceled, and changes no count itself |
| StreamManagers.DrainedExactlyWhen | internal/proxy/streams.go:78-95 | where no count gets negative it returns nil exactly at the first poll at which no agent has a stream |
| StreamProxying.Forward | internal/proxy/sse.go:150-226 | for every schedule of reader, disconnect, idle timer and receives the goroutine, channel and select loop do what the step function says, and the body is the backend's first lines and at most one error event |
| StreamProxying.LoopInv | internal/proxy/sse.go:150-166 | under every schedule the channel holds the next line to write or, after all of them, the failure; it is closed only when everything has gone into it |
| StreamProxying.EndingMeans | internal/proxy/sse.go:173-226 | an end as the backend's means all lines were written, with a read error or without; the other ends mean that the client left or the idle timer fired, and an open loop that neither did |
| StreamProxying.RoundDoesWork | internal/proxy/sse.go:150-226 | no deadlock: a turn of the reader and then of the loop always uses up one of finitely many moves |
| StreamProxying.EverythingArrives | internal/proxy/sse.go:150-226 | on any schedule without disconnect and timeout that gives both enough turns every line is written and the stream ends as the backend did |
| StreamProxying.ProxyStream | internal/proxy/sse.go:57-226 | the slot taken is held as long as the loop runs and given back on every path that ends it, and no other agent's count moves; refused exactly when draining or at the limit; what the client gets is what the forwarding loop leaves |
| StreamProxying.ErrorBecomesLastEvent | internal/proxy/sse.go:184-203 | the error event, even when it cuts an event in two, ends up as one last event of type error that absorbs the unfinished data lines |
| StreamProxying.ClientSees | internal/proxy/sse.go:166-226 | all the client's events but the last are the backend's first ones; a cut stream ends with type error; a normal end gives exactly the backend's events |
| StreamProxying.ErrorSaysWhy | internal/proxy/sse.go:184-203 | after whole events the error event is one of its own, with code 408 for an idle timeout and 502 for a failed backend |
| StreamProxying.DeliveredIsPrefix | internal/grpc/server.go:327-384 | through the gRPC forwarder a stream cut with an error event, or with nothing deliverable left over, delivers a prefix of the messages of the whole one; otherwise all messages but the last are such a prefix |
| StreamProxying.CutDelivers | internal/grpc/server.go:363-381 | a forwarder whose own read fails sends a prefix of the messages of all lines and at most one more, and none more when the cut leaves nothing deliverable behind |
| StreamProxying.CutIsPrefixExactlyWhen | internal/grpc/server.go:363-381 | what is sent is a prefix of the messages of the whole stream, however it would have gone on, if and only if the cut leaves nothing deliverable behind |
| StreamProxying.CutDataIsFlushed | internal/grpc/server.go:363-377 | that one more can be a truncated message: a run that sends half of a two-line event |
| StreamProxying.ScanRender | internal/proxy/sse.go:209-209 | scanning the written text gives the lines back, less one trailing carriage return each |
| StreamProxying.TextKeepsEvents | internal/grpc/server.go:330-361 | so the events read from the text are those of the lines, if no line is a lone carriage return |
| StreamProxying.LoneCarriageReturnSplits | internal/grpc/server.go:334-352 | losing a final carriage return is harmless in every context if and only if the line is not just that |
| EventStreams.RunConcat | internal/grpc/server.go:327-361 | the parser's state after a concatenation is that of the second part started from the first's |
| EventStreams.ParseAtBlankLine | internal/grpc/server.go:334-352 | parsing is a homomorphism at blank lines |
| EventStreams.EndActsAsBlankLine | internal/grpc/server.go:363-377 | the end of input acts as a blank line |
| EventStreams.ParseIgnoresTheRest | internal/grpc/server.go:354-360 | dropping non-blank lines that are neither event nor data changes nothing |
| EventStreams.LinesMean | internal/grpc/server.go:354-360 | a lone data line, with or without a space, is an event without a type; a type line gives its type; both are trimmed, and of two types the later counts |
| EventStreams.NoDataNoEvent | internal/grpc/server.go:335-335 | lines without a data line make no event |
| EventStreams.JoinSplit | internal/grpc/server.go:336-336 | splitting data at newlines and joining it is the identity, and no part holds a newline |
| EventStreams.SplitJoin | internal/grpc/server.go:336-336 | the other way round, for parts without newlines |
| EventStreams.PrintThenParse | internal/grpc/server.go:327-377 | printing any list of events with trimmed type and data lines and parsing it returns the list, empty and multi-line data included |
| EventStreams.ParsePrintParse | internal/grpc/server.go:327-377 | whatever was parsed from any lines survives printing and parsing |
| EventStreams.CompletedIsPrefix | internal/grpc/server.go:334-352 | events completed by the first lines come first among the events of all lines |
| EventStreams.ForwardStep | internal/grpc/server.go:330-361 | one line's effect on what is collected and what is deliverable |
| EventStreams.DeliveredExactlyWhen | internal/grpc/server.go:387-419 | an event is sent on exactly when it has no type, or the type status or artifact, and its data decodes |
| EventStreams.RefusedIsBeyond | internal/grpc/server.go:344-346 | once the stream refuses an event, the messages sent are those of the complete input cut at that point |
| EventStreams.ForwardSSEToStream | internal/grpc/server.go:323-384 | sends exactly the deliverable events in order, up to the first refused send; the error tells refusal from a failed read |
| NonceStores.MemoryNonceStore.CheckAndStore | internal/security/replay.go:44-60 | answers and updates as specified, with its two clock readings |
| NonceStores.MemoryNonceStore.CleanupTick | internal/security/replay.go:63-82 | in any map order exactly the entries whose expiry has passed go |
| NonceStores.CleanupInvisible | internal/security/replay.go:44-82 | with cleanup visits at arbitrary times every answer is that of a store that never deletes |
| NonceStores.AcceptedUsesAreApart | internal/security/replay.go:44-60 | two accepted uses of one nonce are at least the window apart |
| NonceStores.RefusedExactlyWhen | internal/security/replay.go:44-60 | with cleanup at any time, a use is refused if and only if an earlier accepted use of the same nonce has not run out; a nonce never used before is accepted |
| NonceStores.SweptHoldsRecentNonces | internal/security/replay.go:63-82 | an undisturbed cleanup leaves exactly the entries made by a use accepted within the last window |
| NonceStores.TickLeavesRecentNonces | internal/security/replay.go:63-82 | after a tick, however uses come between its visits, the map holds exactly the nonces accepted at most a window before the tick read the clock, or since |
| ReplayDetection.ReplayDetector.Process | internal/security/replay.go:151-339 | the whole branching decision equals the specification, and the store changes only when its check is reached |
| ReplayDetection.OnlyRequireRefuses | internal/security/replay.go:324-338 | under any policy but require, the default warn among them, every request on every run passes |
| ReplayDetection.PassesExactlyWhen | internal/security/replay.go:151-339 | in require mode, on every run, a request passes if and only if it is not a JSON POST, or it offers a nonce where the nonce source says (header before body for auto), its timestamp is missing or neither too old nor too far ahead, and no earlier request that passed with this nonce is less than a window old |
| ReplayDetection.RefusalTellsWhy | internal/security/replay.go:176-333 | a refusal is a 400 exactly when no nonce is offered, else a 429, with the message of its reason |
| ReplayDetection.LateAdmissionIsLast | internal/security/replay.go:265-338 | an admission later than its timestamp by more than the time another request spends between its clock readings is not followed by that one; for requests that take no time (`Instant`) a late admission is the last |
| ReplayDetection.LateRepeatExactlyWhen | internal/security/replay.go:238-338 | with the three clock readings a pair let through `late` after its timestamp can pass again in a request that takes `delay` between its readings if and only if -clockSkew <= late <= window and late <= delay |
| ReplayDetection.AdmissionsBounded | internal/security/replay.go:265-338 | in require mode, over any run with cleanup, one (nonce, timestamp) pair passes at most 2 + floor(clockSkew / window) times when requests take no time (`Instant`), and at most twice that with the code's three clock readings |
| ReplayDetection.BoundIsTight | internal/security/replay.go:265-338 | both bounds are reached, for every window and every skew, negative ones included |
| ReplayDetection.AdmissionsAtMostExactlyWhen | internal/security/replay.go:238-338 | for every delay d and number n: with requests delayed at most d between their readings the pair passes at most n times on every run if and only if the earliest time of admission number n is past window + clockSkew |
| ReplayDetection.EarliestInClosedForm | internal/security/replay.go:44-60 | that earliest time: n * (window - d) for delays up to half a window, half of n windows, and one window - d for odd n, beyond |
| ReplayDetection.SingleBoundExactlyWhen | internal/security/replay.go:238-338 | the bound 2 + floor(clockSkew / window) holds with delays up to d if and only if bound * (window - d) > window + clockSkew |
| ReplayDetection.DelayedRequestsExceed | internal/security/replay.go:238-338 | for one, with delays of a window: a run with twice as many admissions, the last two after the timestamp |
| ReplayDetection.AdmissionAdvances | internal/security/replay.go:44-60 | each admission pushes the nonce's expiry and the clock on to the earliest times that its number allows |
| RateLimiting.RateLimiter.GetLimiter | internal/security/ratelimit_ip.go:71-92 | looks up or creates a full limiter and notes when; no other key changes |
| RateLimiting.RateLimiter.Process | internal/security/ratelimit_user.go:46-62 | a caller without a key passes and changes nothing; any other spends from its own bucket only |
| RateLimiting.RateLimiter.CleanupTick | internal/security/ratelimit_ip.go:95-114 | in any map order exactly the entries unseen for more than the interval go |
| RateLimiting.EvictionInvisible | internal/security/ratelimit_ip.go:71-114 | if a burst refills within the interval, the evicting map admits and denies as one that never evicts, on every run |
| RateLimiting.EvictionVisible | internal/security/ratelimit_user.go:75-118 | otherwise a run of two bursts on which it admits a request too many |
| RateLimiting.EvictionInvisibleExactlyWhen | internal/security/ratelimit_ip.go:71-114 | both together: an equivalence with perMinute * (interval + 1 ns) >= burst * 60 000 000 000 ns |
| RateLimiting.TokensConserved | internal/security/ratelimit_ip.go:47-58 | tokens spent in a stretch and the level left never exceed a full bucket and the refill of that stretch |
| RateLimiting.AdmissionRateBounded | internal/security/ratelimit_ip.go:47-114 | so in any stretch of d nanoseconds a key is admitted at most burst + perMinute * d / 60 000 000 000 times, eviction included |
| RateLimiting.RateBoundedExactlyWhen | internal/security/ratelimit_ip.go:47-114 | that bound holds for every run, key and stretch if and only if evicted buckets refill within the interval |
| RateLimiting.DeniedExactlyWhen | internal/security/ratelimit_ip.go:47-92 | a request is denied if and only if, since some request of its key up to itself, a full burst and a minute's rate for each minute passed, less the admissions made, leave under one token; with eviction too, when buckets refill in time |
| AgentCards.CapabilitiesStringInjective | internal/agentcard/change.go:195-201 | two capability sets, nil included, have the same text only if they are equal |
| AgentCards.DiffersIsTextDiffers | internal/agentcard/change.go:33-125 | a field is reported exactly when its old and new text differ |
| AgentCards.ReportsExactlyTheDifferences | internal/agentcard/change.go:33-125 | a change is reported if and only if it is that of a field whose texts differ |
| AgentCards.OneTextChanged | internal/agentcard/change.go:33-78 | a card that differs in its address, version, name or description only is reported as that one change, with its name, old text, new text and weight |
| AgentCards.OneCountChanged | internal/agentcard/change.go:80-122 | the same for the two counts and the capabilities |
| AgentCards.AllChangedInOrder | internal/agentcard/change.go:33-125 | when everything watched changed the changes come in the order of the comparisons |
| AgentCards.FlagsNamed | internal/agentcard/change.go:195-201 | the capabilities text names each flag |
| AgentCards.UnchangedIsWatchedEquality | internal/agentcard/change.go:33-125 | no change exactly when address, version, name, description, the two counts and the capabilities are equal |
| AgentCards.CriticalExactlyWhen | internal/agentcard/change.go:128-135 | critical exactly when address, version or scheme count changed or skills moved by more than half |
| CardLifecycle.PendingStore.Approve | internal/agentcard/pending.go:45-56 | removes the agent's change and hands it over marked approved, or reports that there is none |
| CardLifecycle.PendingStore.List | internal/agentcard/pending.go:72-81 | in any map order each pending change once |
| CardLifecycle.Manager.FetchAndUpdate | internal/agentcard/poller.go:39-78 | a poll changes its own agent and, under approve, that agent's pending change, as specified |
| CardLifecycle.Manager.ApproveCardChange | internal/agentcard/manager.go:189-204 | both sections in a row remove the change and serve its card; without one nothing changes |
| CardLifecycle.StepKeepsInv | internal/agentcard/manager.go:189-216 | every locked section keeps: only approve agents have changes pending or being applied, healthy agents have a card; policies stay and no card is taken away |
| CardLifecycle.OnlyApproveAgentsPend | internal/agentcard/change.go:138-192 | in every interleaving auto and alert agents have no pending entry |
| CardLifecycle.CardStays | internal/agentcard/poller.go:39-78 | a card never becomes nil again |
| CardLifecycle.AlertNeverChangesCard | internal/agentcard/change.go:151-164 | under alert or an unknown policy the first fetched card is served for ever |
| CardLifecycle.AlertServesFirstFetched | internal/agentcard/poller.go:39-78 | and that card is the first one fetched |
| CardLifecycle.HealthFollowsPolls | internal/agentcard/poller.go:39-78 | healthy exactly when the last poll fetched a card; a card exists exactly when some poll did |
| CardLifecycle.AutoServesLastFetched | internal/agentcard/poller.go:57-77 | under auto the served card agrees with the last fetched one on all that is watched |
| CardLifecycle.AutoServesFetchedCard | internal/agentcard/poller.go:57-77 | and it is, whole, a card fetched from that agent with which all fetched since agree on what is watched |
| CardLifecycle.PendingOrigin | internal/agentcard/change.go:166-178 | a pending entry was proposed by a poll of its own agent and has been there untouched since |
| CardLifecycle.PendingExactlyWhen | internal/agentcard/pending.go:36-69 | in every interleaving an approve agent has a change pending if and only if a poll fetched a card that differs from the served one in something watched and no approval or rejection came since; the entry is that of the latest such poll |
| CardLifecycle.ApprovingOrigin | internal/agentcard/manager.go:190-194 | a change between the two halves of an approval was taken out by that very approval |
| CardLifecycle.ServedCardProvenance | internal/agentcard/manager.go:189-204 | in every interleaving an approve agent's card is its first fetch, or was fetched from that agent, proposed, removed by exactly one approval, kept by that approval until its second half applied it, and it has been served ever since |
| CardLifecycle.ConcurrentApprovalsRace | internal/agentcard/manager.go:189-204 | the second halves of two approvals leave the same result in either order if and only if they carry the same card |
| CardLifecycle.LatestApprovalWins | internal/agentcard/manager.go:189-204 | on every run that never takes a change out of the store while an approval of another card for that agent is in progress, the card served whenever none is in progress is that of the change taken last |
| CardLifecycle.ApprovalWinsExactlyWhen | internal/agentcard/manager.go:189-204 | an approval is sure to win, on every continuation that takes no further change of the agent, if and only if the approvals in progress as it begins carry the same card |
| CardLifecycle.StaleApprovalCanWin | internal/agentcard/manager.go:189-204 | any run with a change pending can go on so that it overwrites a card approved later |
| PolicyEngines.MatchIPs | internal/security/policy_engine.go:149-194 | the first entry that covers the address decides; without one only a list of exclusions passes |
| PolicyEngines.ExclusionHoldsExactlyWhenFirst | internal/security/policy_engine.go:149-194 | an exclusion covering an address holds if and only if every earlier entry allowing it is itself preceded by an exclusion |
| PolicyEngines.ExclusionCanFail | internal/security/policy_engine.go:149-194 | any exclusion fails for any address it covers behind an entry that allows everything, and holds before it |
| PolicyEngines.MatchPolicy | internal/security/policy_engine.go:111-131 | the chain of early exits is the conjunction of the six conditions |
| PolicyEngines.ListsMatch | internal/security/policy_engine.go:111-144 | a policy without conditions matches every request; one with a single list matches exactly by the request's own agent, method or user |
| PolicyEngines.AddressesMatch | internal/security/policy_engine.go:149-212 | a policy with addresses only: none without an address; the first covering entry decides; without one exactly a list of exclusions |
| PolicyEngines.HeadersMatch | internal/security/policy_engine.go:216-230 | a policy with headers only: each has its value, and the empty one where the request has none |
| PolicyEngines.TimeMatches | internal/security/policy_engine.go:263-297 | a policy with a time range only: by the minute of its zone, of UTC when unset or unknown; a range that does not parse matches always |
| PolicyEngines.MatchesByParts | internal/security/policy_engine.go:111-131 | a policy matches if and only if each of its conditions alone does |
| PolicyEngines.RangeIsCyclic | internal/security/policy_engine.go:286-297 | normal, overnight and empty ranges are one comparison modulo the day |
| PolicyEngines.CutsPartitionTheDay | internal/security/policy_engine.go:286-297 | ranges between increasing cut points cover each minute exactly once, if and only if there are at least two |
| PolicyEngines.DecideFindsBest | internal/security/policy_engine.go:49-77 | on a priority order the first match is a matching policy that none outranks |
| PolicyEngines.EvaluationFindsBest | internal/security/policy_engine.go:49-107 | for every order the sort may leave the decision has the action, name and description of a best matching policy of those given, or is to allow |
| PolicyEngines.DistinctPrioritiesFixTheOrder | internal/security/policy_engine.go:103-107 | with distinct priorities there is only one order |
| PolicyEngines.BestCanDecide | internal/security/policy_engine.go:103-107 | the sort may let any best policy decide |
| PolicyEngines.DecisionFixedExactlyWhen | internal/security/policy_engine.go:49-107 | the decision is independent of the sort if and only if all best policies decide alike |
| PolicyEngines.PolicyEngine.UpdatePolicies | internal/security/policy_engine.go:80-90 | a sorted copy is installed; the caller's array and the old set are not written to |
| PolicyEngines.PolicyEngine.EvaluateSnapshot | internal/security/policy_engine.go:55-77 | the loop finds the first match of the snapshot, with updates by others before every iteration |
| PolicyEngines.PolicyEngine.Evaluate | internal/security/policy_engine.go:49-77 | with updates before the snapshot, between the iterations and after, the decision is that of one whole installed set, the one of the snapshot; the last update is the one installed in the end |
| ConfigDiffs.InverseUndoes | internal/config/diff.go:90-111 | an accurate change applied and then reversed is the identity |
| ConfigDiffs.UndoAppliesBack | internal/config/diff.go:18-87 | a whole list of accurate changes can be taken back |
| ConfigDiffs.DiffFields | internal/config/diff.go:90-111 | a stretch of compared fields patches exactly that stretch |
| ConfigDiffs.SameViewExactlyWhen | internal/config/diff.go:155-202 | two agents compare equal if and only if their six settings are equal |
| ConfigDiffs.SettingsAreOwn | internal/config/diff.go:155-202 | setting one of them changes what is compared under its own key and nothing else |
| ConfigDiffs.LastOfNameCounts | internal/config/diff.go:116-123 | of agents with one name the last is the one compared |
| ConfigDiffs.DiffAgents | internal/config/diff.go:115-204 | in any map order the agents' changes patch the old agents into the new ones on the six settings, and there are none unless something differs |
| ConfigDiffs.Diff | internal/config/diff.go:18-87 | the change list is a faithful and reversible patch on all that is compared, each entry true of what it replaces and rightly flagged; empty exactly when nothing compared differs |
| ConfigReloads.ConfigReloader.Reload | internal/config/reload.go:109-178 | success exactly when the file loads; then current agrees with it on all that is compared; on failure nothing changes; a failing subscriber keeps nobody from being notified |
| ConfigReloads.CurrentAgreesWithLastLoaded | internal/config/reload.go:109-178 | after any series of reloads current is one loaded configuration, whole, and agrees with the last one loaded on all that is compared |
| ConfigReloads.LoadedInForceExactlyWhen | internal/config/reload.go:122-158 | over any series of reloads the configuration last loaded is always in force if and only if each one loaded equals the one before or differs from it in something compared |
| ConfigReloads.InForceSince | internal/config/reload.go:109-178 | the configuration in force is the first of the latest stretch of loaded ones that agree on all that is compared |
| ConfigReloads.EditOfRestIsDropped | internal/config/reload.go:122-127 | an edit of what is not compared, the policies for one, is loaded and not in force |
| ConfigReloads.Run | internal/config/reload.go:181-238 | at the end of any series of inputs up to a close or cancel the timer is what the log of events and reloads says |
| ConfigReloads.TimerExactlyWhen | internal/config/reload.go:205-226 | in terms of the inputs: write, create and rename events and nothing else arm the timer, due debounce after the latest, and it runs until it fires when due |
| ConfigReloads.InputIsLogged | internal/config/reload.go:198-236 | every signal and every timer that fires when due gives a reload, every such file event an entry, other inputs nothing |
| ConfigReloads.LogIsLegal | internal/config/reload.go:188-237 | on a clock that never goes back every timer reload was due |
| ConfigReloads.DueIsLatestEvent | internal/config/reload.go:207-217 | an armed timer is due debounce after the latest event since the last timer reload |
| ConfigReloads.TimerReloadAfterQuiet | internal/config/reload.go:224-235 | a timer reload comes at least debounce after every event before it |
| ConfigReloads.TimerReloadsApart | internal/config/reload.go:224-235 | between two timer reloads there is an event, so they are debounce apart |
| ConfigReloads.ReloadsNoMoreThanEvents | internal/config/reload.go:207-235 | timer reloads and the armed timer together are no more than events |
| ConfigReloads.EventsCoveredExactlyWhenUnarmed | internal/config/reload.go:207-235 | the timer is unarmed if and only if every event has been followed by a timer reload |
| ConfigReloads.QuietMeansReloaded | internal/config/reload.go:109-238 | once the timer is unarmed every write, create or rename of the file has been followed by a timer reload at least debounce later; if that one or one since then loaded, current agrees on all that is compared with the last load, itself at least debounce after the event |
| LimitedListeners.LimitedListener.Accept | internal/server/server.go:586-594 | takes a token exactly when it returns a connection; a failed inner accept gives it back |
| LimitedListeners.LimitedListener.Close | internal/server/server.go:604-608 | however often called, one token a connection |
| LimitedListeners.StepKeepsInv | internal/server/server.go:586-608 | every step keeps: tokens are accepts in progress and unreleased connections, within the limit |
| LimitedListeners.TokensAccounted | internal/server/server.go:586-608 | in every interleaving accepted less released is the open connections, and the receives of a failed accept and of a close never block |
| LimitedListeners.FullExactlyWhen | internal/server/server.go:586-588 | an accept waits exactly while accepts in progress and unreleased connections fill the limit |
| Decimal.NatDigitsCanonical | internal/audit/metrics.go:282-303 | the printed digits denote the number and have no superfluous zero |
| Decimal.CanonicalNatUnique | internal/audit/metrics.go:282-303 | no other digit string does |
| Decimal.DecimalIsTheCanonicalForm | internal/audit/metrics.go:282-303 | with the sign: a string is the canonical decimal of n if and only if it is the one printed |
| Decimal.AppendDigits | internal/audit/metrics.go:292-295 | the digit loop leaves the digits backwards |
| Decimal.Reverse | internal/audit/metrics.go:299-301 | the swapping loop reverses the buffer |
| Decimal.IntToString | internal/audit/metrics.go:282-303 | the canonical decimal of every 64-bit number but the least, for which only the sign comes out |
| Decimal.StatusString | internal/audit/metrics.go:250-279 | the table of frequent codes agrees with the printer on every code, the least included |
| Decimal.NatValueBound | internal/security/replay.go:347-357 | k digits denote less than ten to the k, so the reader cannot overflow |
| Decimal.ParseEpoch | internal/security/replay.go:347-357 | accepts exactly ten digits, and reads the number they denote |
| Decimal.PrintThenParseEpoch | internal/security/replay.go:347-357 | every printed ten-digit number is read back as itself |

## Left out

- HTTP, TLS and gRPC transport, logging, file watching and signals: their results are arbitrary inputs.
- JWT, JWS, JWKS and SSRF checks: they rest on libraries and the network.
- JSON, YAML, address, CIDR and time-zone parsing: parsed values are taken, unparsable ones included.
- The RFC 3339 branch of `parseTimestamp`: library code.
- Other metrics, health handlers, the command line, migration, profiles, routing, message translation and card aggregation: they would add easy members.
- NonceStores.MemoryNonceStore.CheckAndStore: the code's load and store are two operations; racing calls are not modelled, so the store's theorems are about calls one after the other.
- RateLimiting.RateLimiter.Process: lookup and spending are one step with one clock reading; races between them and an eviction are not modelled.
- RateLimiting.TokensConserved: the token bucket of golang.org/x/time/rate is not part of this model and enters as its contract, in exact arithmetic instead of floating point.
- ReplayDetection.ReplayDetector.Process: what is extracted from the body and the header's time are inputs; a disabled detector has a store it never uses.
- StreamManagers.StreamManager.AcquireStream: others move only this agent's counter, given as sums; other agents' counters and the steps of the others are in the step machine.
- StreamManagers.StreamManager.DrainAll: others only release, and only between scans; scans that race with acquires and releases are in the step machine.
- StreamManagers.ReleaseUndoesAcquire: for an acquire under interference and a release right after it; arbitrary interleavings are in `StreamTheorems.CounterCountsSlots`.
- StreamProxying.ProxyStream: nobody else uses the manager during the call, response headers are left out, and the idle timer may fire at any moment.
- NonceStores.MemoryNonceStore.CleanupTick: nothing happens between the visits of one tick of the object; ticks with uses between their visits are in `NonceStores.TickLeavesRecentNonces`.
- NonceStores.SweptHoldsRecentNonces: about such an undisturbed tick.
- NonceStores.CleanupInvisible: a visit reads and deletes in one step; in the code these are two operations, so an entry renewed between them can be deleted.
- RateLimiting.RateLimiter.CleanupTick: nothing happens between the visits of one tick of the object; in the runs requests come between visits, and a visit reads and deletes in one step.
- CardLifecycle.Manager.ApproveCardChange: both sections run with nothing in between; interleavings are in the runs of `CardLifecycle.State`.
- CardLifecycle.ConcurrentApprovalsRace: about one state; the statements over runs are `CardLifecycle.LatestApprovalWins` and `CardLifecycle.ApprovalWinsExactlyWhen`.
- LimitedListeners.LimitedListener.Accept: returns none at the limit where the code blocks; waiting is in the step machine.
- StreamProxying.Forward: a line over the size limit is a read error; the reader goroutine left behind after a disconnect is not followed.
- CardLifecycle.Manager.FetchAndUpdate: poll times, error texts and the fetch itself are left out.
- PolicyEngines.MatchPolicy: header names are taken in canonical form.
- PolicyEngines.PolicyEngine.UpdatePolicies: `sort.Slice` is library code; an insertion sort stands in, and only its contract is used: any priority order of the given policies.
- ConfigDiffs.DiffFields: the fields are a table walked by a loop instead of one call each, so which field each call reads is taken as given.
- ConfigDiffs.Diff: the compared fields are a table walked by a loop instead of one call each, the agents' six comparisons likewise; a NaN, which differs from itself, is not modelled.
- ConfigReloads.Run: a timer that fires before it is due, or unarmed, is ignored.
- Integer width of counters, tokens and durations: counters are bounded by the limits proved, saturation of time differences is not modelled.
