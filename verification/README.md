# Verified model of the RPC gateway

The gateway keeps a pool of RPC providers per path. It probes them, taints bad ones with an exponential backoff, routes each HTTP request through the healthy ones with failover, tracks WebSocket subscriptions, and shuffles the providers at start-up. This project models that logic in Dafny and proves what holds over all inputs, all runs and all interleavings.

## How the model is laid out

| file | contents |
|---|---|
| `TaintSpec.dfy`, `HealthCheckers.dfy` | the taint state of one checker as a value with one function per step; the checker object whose methods are proved to take those steps |
| `TaintRuns.dfy`, `Backoff.dfy` | all runs of one checker: timers, the stranded state, eth_call cadence; the log of armed waits and its closed form |
| `BlockLag.dfy`, `LagPools.dfy`, `HealthCheckManagers.dfy` | the lag test and the store/scan/taint protocol at the granularity of single atomic loads; exactly when lag alone can taint everybody or a maximum holder; the manager object, its list and lookup map |
| `FailoverSpec.dfy`, `ResponseWriters.dfy`, `Proxies.dfy` | failover of one request and the commit marker; the writer and proxy objects |
| `Quarantine.dfy` | requests, check cycles and timers of the whole gateway in one run |
| `Shuffle.dfy`, `ShuffleReach.dfy` | the Fisher-Yates loop, its choice vectors and the generator behind them; which orders one shuffle and repeated shuffles can produce |
| `Subscriptions.dfy`, `ConnPool.dfy`, `WebSocketProxies.dfy` | subscription maps against the message history, the shared set, the connection pool, and the proxy object |
| `HexQuantity.dfy` | the hex quantity parser |
| `Arithmetic.dfy`, `Sequences.dfy`, `Wrappers.dfy` | powers of two and remainders; last positions and distinctness; an option type |

Objects that the program updates in place are classes. Each of their methods is proved equal to a function on the object's contents, and the theorems are about those functions and their runs. `Proxies.Proxy.ServedRequestIsGatewayStep` and `Proxies.CycleIsGatewayStep` say that what a request or a check cycle does to the objects is a step of the gateway runs of `Quarantine.dfy`; timers, signals and Stop are steps there by the contracts of the checker object.

## Step granularity and assumptions

- Taint, timer callback, signal read, Stop and check cycle are whole-method atomic steps with an explicit clock. A timer fires at or after its due time. `RemoveTaint` is called only by the timer callback, as in the program outside its tests.
- The Go runtime's timers are part of the checker state, so "at most one live timer" is a theorem and not built in.
- Block lag is modelled at load/store granularity: one store, one load per scanned checker, one verdict.
- Each tracking call on a WebSocket connection is one atomic step and a closed connection takes no further steps. `UnsubscribeAll` is split at its two critical sections, and its mutex is modelled.
- Network answers, ping and dial results, failures to write an unsubscribe message, the clock and the seed are parameters.
- The start value of a shuffle is an arbitrary 64-bit number, or one from a stretch of consecutive nanoseconds. The program shuffles at start-up once for the configuration switch (internal/rpcgateway/rpcgateway.go:183-185) and once more for the command line flag (main.go:66-67), so repeated shuffles are covered too.
- In `Proxies.dfy` providers are named by their position among the targets.

## Where the code and its promises differ

- The repository's own README (line 66) says a provider is healthy again as soon as it passes a health check. In the code a tainted provider is not probed; only its timer clears the taint (`Backoff.StepEffect`).
- A stale signal can stop the timer of a fresh taint and leave the provider tainted for good. `TaintRuns.StaleSignalStrands` gives the run; `TaintRuns.StrandedIffDrainedWhileTainted` says exactly which runs do this and `TaintRuns.StrandedIsAbsorbing` that nothing repairs it.
- A health-check taint may wait less than its own 30-second initial wait (`Backoff.HealthCheckWaitBelowInitial`, exact condition in `Backoff.NextWaitInRange`).
- A lag verdict about the HTTP connection of a two-connection provider taints its WebSocket checker, even when that one is in the lead (`LagPools.SharedNameTaintsTheLeader`). `LagPools.LeadersSparedIff` says exactly when a maximum holder is safe: with reports that neither fall nor wrap, exactly when no two checkers share a name, or the threshold is 2^63 or more so that nobody ever lags, or there is only one checker.
- Lag alone can taint every provider when reports fall (`LagPools.FallingReportEmptiesThePool`) or the comparison wraps (`LagPools.WrappingReportEmptiesThePool`). `LagPools.LagSparesIff` gives the exact condition for any set of checkers under any of the four combinations of rules; for the whole pool and arbitrary reports it is "two checkers share a name, or there is one checker and the threshold is 0" (`LagPools.PoolSurvivesAnyReportsIff`).
- Requests draw from the checkers of one connection type, and lag alone can taint all of those although the whole pool survives: `HealthCheckManagers.HTTPPoolSurvivesLagIff` and `HealthCheckManagers.WebSocketPoolSurvivesLagIff` say when, in terms of the configured targets.
- A provider that resets the connection in the middle of its answer is taken for a client that left and is not tainted, and a client that stalls gets the provider tainted (`FailoverSpec.WrongSideBlamed`, exact condition in `FailoverSpec.ProviderBreakTaintedIff`).
- One shuffle can produce every order if and only if there are at most three distinct providers (`ShuffleReach.AllOrdersReachableIff`), and then every ten consecutive nanoseconds of clock time are enough (`ShuffleReach.AllOrdersInTenNanoseconds`). With four or more providers one shuffle cannot produce at least half of the orders (`Shuffle.HalfTheOrdersAreUnreachable`). With both switches on the program shuffles twice: that reaches every order of four providers, and cannot reach every order of thirty-five or more (`ShuffleReach.TwoShuffles`). For the numbers in between nothing is claimed about two shuffles.
- `UnsubscribeAll` drops ids without an unsubscribe message in two ways: an id that arrives while the call is dialling (`Subscriptions.LateIdIsForgotten`), and an id whose message cannot be written, which is only logged (`Subscriptions.UnsentIdIsForgotten`). `Subscriptions.ClearForgetsLateIds` says exactly which ids get their message.
- A lookup by a connection type that itself ends in ":http" or ":websocket" can return another provider's checker (`HealthCheckManagers.LookupExact`). The program only passes "http" and "websocket".

## Model

| member | source | states |
|---|---|---|
| `HealthCheckers.HealthChecker.constructor` | internal/proxy/healthchecker.go:161-187 | a new checker is untainted, remembers no removal, starts from a 30-second wait, and defaults to "evm" and "http" |
| `HealthCheckers.HealthChecker.Taint` | internal/proxy/healthchecker.go:540-603 | the whole new taint state, including the runtime's timers; a tainted checker is left alone; the cleanup callback runs exactly on effective taints of WebSocket checkers |
| `HealthCheckers.HealthChecker.TaintHTTP` | internal/proxy/healthchecker.go:606-608 | a taint under the 10 s / 60 s / 20 s configuration |
| `HealthCheckers.HealthChecker.TaintHealthCheck` | internal/proxy/healthchecker.go:612-618 | a taint under the 30 s / 20 min / 5 min configuration |
| `HealthCheckers.HealthChecker.RemoveTaint` | internal/proxy/healthchecker.go:620-637 | clears the flag and the timer pointer and stamps the removal, keeping the wait |
| `HealthCheckers.HealthChecker.OnRemovalTimer` | internal/proxy/healthchecker.go:579-585 | a due timer leaves the runtime, removes the taint and fills the signal slot |
| `HealthCheckers.HealthChecker.OnTaintRemoveSignal` | internal/proxy/healthchecker.go:511-518 | a received signal stops and forgets whatever timer is current |
| `HealthCheckers.HealthChecker.Stop` | internal/proxy/healthchecker.go:522-529 | fills the signal slot and changes nothing else |
| `HealthCheckers.HealthChecker.StoreBlockNumber` | internal/proxy/healthchecker.go:446-456 | a failed probe taints and stores nothing; a good one is stored |
| `HealthCheckers.HealthChecker.CheckAndSetEthCallHealth` | internal/proxy/healthchecker.go:463-482 | when the eth_call probe is sent, and the taint if it fails |
| `TaintRuns.TimerSafety` | internal/proxy/healthchecker.go:497-589 | in every run: at most one live timer, a live timer implies tainted, and it is due at lastRemoval + waitTime |
| `TaintRuns.StrandedIffDrainedWhileTainted` | internal/proxy/healthchecker.go:511-518 | a run ends tainted without a live timer if and only if it read a signal while tainted |
| `TaintRuns.DisciplinedTaintHasItsTimer` | internal/proxy/healthchecker.go:540-589 | if no stale signal waits when a taint begins and Stop is not called while tainted, then tainted if and only if one timer is pending, due at lastRemoval + waitTime |
| `TaintRuns.StrandedIsAbsorbing` | internal/proxy/healthchecker.go:421-434 | tainted without a live timer never changes again apart from the signal slot, and no probe is ever sent |
| `TaintRuns.RecoverableIffNotStranded` | internal/proxy/healthchecker.go:497-589 | some continuation clears the taint if and only if the checker is not stranded |
| `TaintRuns.StaleSignalStrands` | internal/proxy/healthchecker.go:579-585 | taint, timer, taint, signal read is a run without Stop that strands a checker |
| `TaintRuns.SignalIff` | internal/proxy/healthchecker.go:511-529 | in every run a signal waits if and only if a timer callback or Stop has sent one that was not read since |
| `TaintRuns.CycleExact` | internal/proxy/healthchecker.go:421-482 | one check cycle in terms of the answers: a tainted checker is left alone; otherwise which probes are sent and in which order, that exactly a failed probe or a lag verdict taints, and which number is stored |
| `TaintRuns.CyclesTaintIff` | internal/proxy/healthchecker.go:421-482 | a new checker that only runs check cycles ends up tainted if and only if some block number probe failed, some lag verdict hit it, or, for HTTP EVM checkers, the eth_call of an even-numbered cycle failed |
| `TaintRuns.EthCallEverySecondCycle` | internal/proxy/healthchecker.go:463-473 | over every run an HTTP EVM checker sends eth_call on exactly every second cycle that gets that far, across counter wrap-around; other checkers never do |
| `Backoff.StepEffect` | internal/proxy/healthchecker.go:540-637 | only the timer callback clears a taint, not before its wait has passed; taints arm the backoff wait; nothing else touches the memory |
| `Backoff.TaintExact` | internal/proxy/healthchecker.go:540-588 | a taint more than the reset duration after the last removal, or without one, waits the initial time, any other the capped double; the old timer is replaced by one due after that wait; a second taint changes nothing |
| `Backoff.RunObeysLogLaw` | internal/proxy/healthchecker.go:559-588 | in every run each armed wait follows from the one before, and each taint window ends before the next taint |
| `Backoff.BackoffClosedForm` | internal/proxy/healthchecker.go:562-566 | the k-th taint of a burst under one configuration waits min(Initial * 2^(k-1), Max) |
| `Backoff.SumOfWaitsClosedForm` | internal/proxy/healthchecker.go:562-566 | the first n waits of a burst sum to Initial * (2^m - 1) + (n - m) * Max when the cap is reached after m taints |
| `Backoff.BurstInRun` | internal/proxy/healthchecker.go:559-588 | in every run n taints of a burst take at least that long |
| `Backoff.HTTPBurstWaits` | internal/proxy/healthchecker.go:109-114 | in every run HTTP taints that follow removals within 20 s wait 10, 20, 40 and then 60 seconds |
| `Backoff.HealthCheckBurstWaits` | internal/proxy/healthchecker.go:101-106 | in every run health-check taints that follow removals within 5 min wait 30 s, 1, 2, 4, 8, 16 and then 20 minutes |
| `Backoff.NextWaitInRange` | internal/proxy/healthchecker.go:99-115 | waits between 10 s and 20 min stay there without overflow and respect the cap; when exactly a wait falls below its own initial wait |
| `Backoff.MixedConfigBounds` | internal/proxy/healthchecker.go:99-115 | over every interleaving of both configurations the shared wait stays in [10 s, 20 min], doubling never wraps, and each wait respects its own cap |
| `Backoff.HealthCheckWaitBelowInitial` | internal/proxy/healthchecker.go:560-566 | a health-check taint right after a 10-second HTTP taint waits 20 s |
| `BlockLag.LagTestExact` | internal/proxy/healthcheckmanager.go:171-173 | the uint64 test means "more than the threshold behind the maximum" if and only if the addition does not wrap; when it wraps it is always true |
| `BlockLag.LagTaintsLastNamed` | internal/proxy/healthcheckmanager.go:160-181 | in every interleaving, for any names, only the last checker with a name is ever tainted for lag |
| `BlockLag.LagNeverEmptiesThePool` | internal/proxy/healthcheckmanager.go:155-182 | in every interleaving with non-decreasing reports and no wrap: for any names lag alone leaves someone untainted; with distinct names every lag-tainted checker is more than the threshold below the maximum and a maximum holder is not lag-tainted |
| `BlockLag.LaggardIsTainted` | internal/proxy/healthchecker.go:446-461 | for any names, a report too far behind a number already stored leaves the last checker of its name tainted, whatever others do meanwhile |
| `LagPools.LagSparesIff` | internal/proxy/healthcheckmanager.go:155-182 | for any names, threshold, set of checkers and rules about the reports: in every interleaving lag alone leaves somebody of the set untainted if and only if one of them is followed by a namesake, or the comparison never wraps and either no lag can occur at that threshold or the set is everyone and two lags cannot add up |
| `LagPools.PoolSurvivesAnyReportsIff` | internal/proxy/healthcheckmanager.go:155-182 | under arbitrary reports lag alone never empties the pool if and only if two checkers share a name, or there is one checker and the threshold is 0 |
| `LagPools.LeadersSparedIff` | internal/proxy/healthcheckmanager.go:155-182 | the exact condition, for any names, threshold and rules, under which no run taints a maximum holder for lag |
| `LagPools.FallingReportEmptiesThePool` | internal/proxy/healthcheckmanager.go:155-182 | a run without wrap in which falling reports get every checker tainted |
| `LagPools.WrappingReportEmptiesThePool` | internal/proxy/healthcheckmanager.go:171-173 | a run with distinct names and non-decreasing reports in which the wrapping comparison gets every checker tainted |
| `LagPools.SharedNameTaintsTheLeader` | internal/proxy/healthcheckmanager.go:166-180 | a run without falling reports or wrap in which a shared name gets the checker that holds the maximum tainted |
| `HealthCheckManagers.HealthCheckManager.constructor` | internal/proxy/healthcheckmanager.go:26-105 | the list holds the HTTP then the WebSocket checker of each target that has the URL, in target order, all new and of the given chain, and the map agrees with the list under every key |
| `HealthCheckManagers.HealthCheckManager.GetHealthChecker` | internal/proxy/healthcheckmanager.go:128-134 | the last checker in the list with the combined key, or nil |
| `HealthCheckManagers.HealthCheckManager.CheckBlockLagAndTaint` | internal/proxy/healthcheckmanager.go:155-182 | taints exactly the last checker with the name if the test holds against the maximum of all numbers, and changes no other |
| `HealthCheckManagers.HealthCheckManager.CheckAndSetBlockNumberHealth` | internal/proxy/healthchecker.go:446-467 | the block number half of a cycle with its callback: the new state of the reporting checker, of the lag victim and of all others |
| `HealthCheckManagers.CycleShows` | internal/proxy/healthcheckmanager.go:155-182 | on block numbers and taint flags that half cycle of an untainted checker is an undisturbed cycle of the lag protocol |
| `HealthCheckManagers.OtherStepsShow` | internal/proxy/healthchecker.go:540-637 | taints from elsewhere and removals of the checker objects are those of the lag protocol |
| `HealthCheckManagers.HealthCheckManager.RunCycle` | internal/proxy/healthchecker.go:421-461 | one whole check cycle with its lag callback: the probes sent and the new state of every checker |
| `HealthCheckManagers.LookupExact` | internal/proxy/healthcheckmanager.go:97-133 | for every configuration the lookup finds the last checker of that very name and type, even if names contain ':', if and only if the type does not end in ":http" or ":websocket" |
| `HealthCheckManagers.VerdictLandsOnLastConnection` | internal/proxy/healthcheckmanager.go:160-180 | with distinct target names a verdict from either connection lands on the WebSocket checker if there is one |
| `HealthCheckManagers.HTTPCheckerNeverLagTainted` | internal/proxy/healthcheckmanager.go:160-180 | in no interleaving is the HTTP checker of a two-connection target tainted for lag |
| `HealthCheckManagers.HTTPPoolSurvivesLagIff` | internal/proxy/healthcheckmanager.go:155-182 | with distinct target names lag alone always leaves an HTTP checker untainted if and only if there is one and some target has both connections, or the comparison never wraps and no lag can occur, or nobody has a WebSocket connection and two lags cannot add up |
| `HealthCheckManagers.WebSocketPoolSurvivesLagIff` | internal/proxy/healthcheckmanager.go:155-182 | the exact condition for the WebSocket checkers, which no namesake shields |
| `ResponseWriters.WriteJSONRPCError` | internal/errors/errors.go:13-54 | sets marker and status only if the marker is absent, then appends the error object |
| `Proxies.Proxy.constructor` | internal/proxy/proxy.go:74-125 | every provider is linked to the checkers that the manager's lookup returns for its name; with distinct names exactly the targets with an HTTP URL have an HTTP checker, each its own |
| `Proxies.Proxy.GetHealthyProviders` | internal/proxy/proxy.go:424-433 | exactly the targets whose checker for the connection type exists and is untainted, in target order |
| `Proxies.Proxy.CopyResponse` | internal/proxy/proxy.go:141-161 | marker, status, delivered bytes and the wrapped error |
| `Proxies.Proxy.HandleProviderFailure` | internal/proxy/proxy.go:183-213 | taints the provider's HTTP checker, if it has one, and no other |
| `Proxies.Proxy.ForwardRequest` | internal/proxy/proxy.go:229-315 | the writer, the return code 1, 0 or -1 and the taint, for every upstream outcome |
| `Proxies.Proxy.ServeHTTP` | internal/proxy/proxy.go:318-405 | the final response and the final state of every HTTP checker, also when providers share one |
| `Proxies.Proxy.TryProviders` | internal/proxy/proxy.go:348-404 | the same for the loop over the snapshot |
| `Proxies.NewlyTaintedExactly` | internal/proxy/proxy.go:183-201 | after a request a checker is tainted if and only if it was before or one of its providers was tried and failed, and then under the HTTP configuration at the time of such a failure; otherwise it is unchanged |
| `Proxies.DistinctNamesDistinctCheckers` | internal/proxy/proxy.go:99-107 | differently named providers never share an HTTP checker |
| `Proxies.Proxy.ServedRequestIsGatewayStep` | internal/proxy/proxy.go:318-405 | if no two providers share an HTTP checker and all taints fall on one instant, what ServeHTTP does to the checker objects is the request step of the gateway runs among the providers that have an HTTP checker |
| `Proxies.RequestIsGatewayStep` | internal/proxy/proxy.go:318-405 | the same on states |
| `Proxies.CycleIsGatewayStep` | internal/proxy/healthchecker.go:421-461 | with distinct target names, what a cycle with its lag callback does to the HTTP checkers there are is the check-cycle step of the gateway runs, and nothing if a WebSocket checker runs it |
| `FailoverSpec.HealthyIsOrderedFilter` | internal/proxy/proxy.go:424-433 | the filter keeps exactly the healthy targets and their order |
| `FailoverSpec.BrokenPipeIff` | internal/proxy/healthchecker_utils.go:38-43 | exactly the errors rooted in EPIPE, ECONNRESET or a closed connection are in the broken-pipe family, however deeply wrapped |
| `FailoverSpec.RequestOutcome` | internal/proxy/proxy.go:318-405 | for every request: an unreadable body is answered 400 and an empty pool 503 with nobody tried; if no healthy provider answers 200..299, 503 after all were tried and tainted; otherwise the first one in order that does answers, with its status and exactly the bytes that came through, the earlier ones are tainted, and it is tainted itself if and only if its answer breaks off outside the broken-pipe family |
| `FailoverSpec.ServeFromOutcome` | internal/proxy/proxy.go:348-404 | the first provider with a 2xx status answers, with exactly the bytes that came through, and ends the loop; without one every provider is tried and the error object is written |
| `FailoverSpec.SingleCommit` | internal/proxy/proxy.go:318-405 | exactly one WriteHeader on every path, the marker is set, and the response is either one tried provider's status and what came through of its body or exactly one error object, never both |
| `FailoverSpec.TaintedAreTheFailures` | internal/proxy/proxy.go:283-314 | the tainted providers are exactly the tried ones that failed; success and broken-pipe errors taint nobody |
| `FailoverSpec.FailoverTrace` | internal/proxy/proxy.go:348-404 | the tried providers are a prefix of the healthy ones, and every one but the last failed before the commit and is tainted |
| `FailoverSpec.AllFailedExact` | internal/proxy/proxy.go:403-404 | the "all failed" error is written if and only if somebody was healthy and no healthy provider answers 2xx; then all were tried |
| `FailoverSpec.RequestAmong` | internal/proxy/proxy.go:424-433 | providers that are never healthy for the connection type do not influence which others a request taints |
| `FailoverSpec.ProviderBreakTaintedIff` | internal/proxy/proxy.go:283-314 | in every request a tried provider whose 2xx answer breaks off is tainted if and only if the error is outside the broken-pipe family |
| `FailoverSpec.WrongSideBlamed` | internal/proxy/healthchecker_utils.go:38-43 | a reset by the provider goes unpunished and a stall of the client taints the provider |
| `Quarantine.GatewayProjects` | internal/proxy/proxy.go:318-405 | every run of the whole gateway is, for each provider, a valid run of its checker |
| `Quarantine.OnlyHealthyContacted` | internal/proxy/proxy.go:424-433 | a tainted provider gets neither a request nor a probe |
| `Quarantine.QuarantineHolds` | internal/proxy/healthchecker.go:421-434 | after a taint no request or probe reaches the provider over HTTP until the armed wait has passed, and that is at least 10 s |
| `Quarantine.StrandedNeverContacted` | internal/proxy/healthchecker.go:421-425 | a stranded provider is never contacted over HTTP again |
| `Shuffle.RandomizeProviders` | internal/proxy/proxy.go:63-71 | the in-place loop produces the order that the generator's choice vector encodes |
| `Shuffle.NextChoice` | internal/proxy/proxy.go:67-68 | the two generator lines of the loop body: one step makes the last of the choices still to be made |
| `Shuffle.SettlePosition` | internal/proxy/proxy.go:66-70 | one round of the loop leaves the final order unchanged |
| `Shuffle.ShuffledPermutes` | internal/proxy/proxy.go:63-71 | every choice vector yields a permutation |
| `Shuffle.ChoicesAreAPermutationCode` | internal/proxy/proxy.go:63-71 | for distinct targets every permutation comes from exactly one choice vector |
| `Shuffle.PermutationsCount` | internal/proxy/proxy.go:63-71 | there are n! of them |
| `Shuffle.LowBitFlips` | internal/proxy/proxy.go:67 | the low bit of the wrapping generator flips in every round |
| `Shuffle.OddChoicesShareParity` | internal/proxy/proxy.go:66-69 | for every seed the choices at all odd positions have one parity, fixed by seed and n |
| `Shuffle.PowerDividingIsGcd` | internal/proxy/proxy.go:66-69 | the factor by which fixing the low k seed bits thins out the i-th choice is gcd(i, 2^k) |
| `Shuffle.FewOrdersReachable` | internal/proxy/proxy.go:65-69 | for each k up to 64 the orders reachable with one shuffle number at most 2^k * n! divided by the product of gcd(i, 2^k) for i = 1..n |
| `ShuffleReach.AllOrdersReachableIff` | internal/proxy/proxy.go:63-71 | for distinct targets one shuffle can produce every order if and only if there are at most three |
| `ShuffleReach.AllOrdersInTenNanoseconds` | internal/proxy/proxy.go:63-71 | every order of up to three targets is produced by a start value in any ten consecutive nanoseconds |
| `ShuffleReach.FourTargetsReachableIff` | internal/proxy/proxy.go:63-71 | for four distinct targets one shuffle produces exactly the orders whose choices at positions 1 and 3 have one parity |
| `ShuffleReach.TwoShufflesOfFour` | internal/rpcgateway/rpcgateway.go:260-264 | two shuffles of four targets, each at some moment of any twenty consecutive nanoseconds, can produce every order |
| `ShuffleReach.FewOrdersAfter` | internal/rpcgateway/rpcgateway.go:260-264 | for every m and any number of targets m shuffles reach at most 2^(64 m) orders |
| `ShuffleReach.TwoShuffles` | internal/rpcgateway/rpcgateway.go:183-264 | two shuffles reach every order of up to four distinct targets and not every order of thirty-five or more |
| `Shuffle.HalfTheOrdersAreUnreachable` | internal/proxy/proxy.go:65-69 | for four or more distinct targets at most half of all permutations are reachable with one shuffle |
| `Subscriptions.MapsMatchHistory` | internal/proxy/websocketproxy.go:253-305 | for every message log an id is pending if and only if a subscribe request with it has had no response since, and a subscription is tracked if and only if it was delivered to a pending request and not unsubscribed since |
| `Subscriptions.TrackExact` | internal/proxy/websocketproxy.go:253-305 | what one message does to any id and any subscription, for the three subscribe and the three unsubscribe method names |
| `Subscriptions.NeverLeaks` | internal/proxy/websocketproxy.go:204-337 | in every reachable state the shared set is contained in the union of the open connections' sets, and is empty once all have closed |
| `Subscriptions.UnionStep` | internal/proxy/websocketproxy.go:276-336 | a step keeps the shared set equal to that union if and only if it removes no id that another connection holds and clears nothing held |
| `Subscriptions.UnionExactIff` | internal/proxy/websocketproxy.go:204-337 | the equality holds throughout a run if and only if every step is of that kind |
| `Subscriptions.ConnFollowsItsLog` | internal/proxy/websocketproxy.go:74-77 | with any number of connections each one's maps depend only on its own messages since it was opened |
| `Subscriptions.SharedIdsAreExplained` | internal/proxy/websocketproxy.go:286-305 | every shared id was delivered to a connection still open and not unsubscribed there since |
| `Subscriptions.ClearForgetsLateIds` | internal/proxy/websocketproxy.go:209-251 | an id that the clear drops gets an unsubscribe message if and only if it was in the snapshot and its write succeeds; a dropped id that was not in the snapshot arrived in between |
| `Subscriptions.LateIdIsForgotten` | internal/proxy/websocketproxy.go:209-234 | a run in which a held id that arrives late is dropped without a message |
| `Subscriptions.UnsentIdIsForgotten` | internal/proxy/websocketproxy.go:236-249 | a run in which a held id of the snapshot is dropped without a message because the write fails |
| `WebSocketProxies.WebSocketProxy.TrackSubscription` | internal/proxy/websocketproxy.go:188-193 | adds the id to the shared set |
| `WebSocketProxies.WebSocketProxy.RemoveSubscription` | internal/proxy/websocketproxy.go:196-201 | removes it |
| `WebSocketProxies.WebSocketProxy.TrackSubscriptionFromMessage` | internal/proxy/websocketproxy.go:253-284 | both maps and the shared set after any client message |
| `WebSocketProxies.WebSocketProxy.TrackSubscriptionResponse` | internal/proxy/websocketproxy.go:286-305 | both maps and the shared set after any upstream message |
| `WebSocketProxies.WebSocketProxy.CleanupConnectionSubscriptions` | internal/proxy/websocketproxy.go:322-337 | removes exactly the connection's ids from the shared set and empties its map |
| `WebSocketProxies.WebSocketProxy.UnsubscribeAll` | internal/proxy/websocketproxy.go:204-251 | an empty set and one message per shared id whose write succeeds if a connection is found; otherwise no message and the shared set stays; the pool afterwards in every case, a dead pooled connection included |
| `WebSocketProxies.WebSocketProxy.GetConnection` | internal/proxy/websocketproxy.go:340-355 | a live pooled connection, or a new one after closing a dead one |
| `WebSocketProxies.WebSocketProxy.ReturnConnection` | internal/proxy/websocketproxy.go:358-370 | back into the pool, or closed if the pool is full |
| `WebSocketProxies.WebSocketProxy.CreateNewConnection` | internal/proxy/websocketproxy.go:373-388 | a fresh connection, or none if dialling fails |
| `ConnPool.PoolConserves` | internal/proxy/websocketproxy.go:340-370 | for any number of concurrent users every connection is in exactly one of pooled, held and closed |
| `ConnPool.GetExact` | internal/proxy/websocketproxy.go:340-355 | a caller gets the first pooled connection if and only if it answers its ping, otherwise a new one or none; a pooled one that does not answer is closed |
| `ConnPool.ClosedStaysClosed` | internal/proxy/websocketproxy.go:340-370 | in every run a closed connection is never handed out or pooled again |
| `ConnPool.UndisturbedCall` | internal/proxy/websocketproxy.go:204-228 | the steps of one undisturbed UnsubscribeAll add up to taking a connection and giving it back |
| `ConnPool.PoolHoldsAtMostOne` | internal/proxy/websocketproxy.go:204-228 | for any number of overlapping UnsubscribeAll calls the mutex keeps pooled plus held connections at one at most, so the pool-full branch is never taken |
| `ConnPool.OverlappingCallsPoolTwo` | internal/proxy/websocketproxy.go:340-370 | without the mutex two overlapping calls leave two connections in the pool |
| `HexQuantity.AcceptedLanguage` | internal/proxy/healthchecker_utils.go:22-35 | exactly which strings are accepted and with which value |
| `HexQuantity.RangeErrorIff` | internal/proxy/healthchecker_utils.go:22-35 | exactly the digit strings of 2^64 or more, with or without prefix, are out of range |
| `HexQuantity.DigitValueExact` | internal/proxy/healthchecker_utils.go:34 | the digits are the sixteen of either case with their positions as values |
| `HexQuantity.CaseDoesNotMatter` | internal/proxy/healthchecker_utils.go:22-35 | for every string, its letter case never changes how it is read, prefix included |
| `HexQuantity.ParsePrint` | internal/proxy/healthchecker_utils.go:22-35 | parsing undoes canonical printing for every value below 2^64 |
| `HexQuantity.PrintParse` | internal/proxy/healthchecker_utils.go:22-35 | among accepted strings exactly the canonical quantities are printed back unchanged |

## Left out

- Network and codec work: JSON-RPC calls, WebSocket dialling and upgrade, JSON decoding and the Solana and Tron block queries; their results are parameters.
- `Proxies.Proxy.ServeHTTP`: the WebSocket branch of the loop is not modelled; it commits through the upgrader and not through the response writer.
- `Proxies.Proxy.TryProviders`: the same.
- `Proxies.Proxy.HandleProviderFailure`: only the HTTP checker is chosen; the program calls it only for requests that are not WebSocket upgrades.
- `Proxies.Proxy.constructor`: the registration of the WebSocket proxies' before-taint callbacks is not modelled.
- What the before-taint callback does inside `Taint`: the model says when it is called, and `UnsubscribeAll` is modelled on its own.
- The pipe goroutines, pings and close frames of the WebSocket proxy: only the order of tracking calls and cleanup matters here. The unlocked sharing of a connection's maps between its two pipes, and a message processed after cleanup, are outside the atomic-step assumption.
- Races inside `Taint` and `RemoveTaint` below whole-method steps, and direct calls of `RemoveTaint`.
- HTTP clients, routing, configuration loading, metrics, logging and all headers except `X-Status-Set`: wiring without invariants of its own.
- Request ids that cannot be Go map keys (JSON arrays and objects).
- `HexQuantity.ParsePrint`: `strconv.ParseUint` is taken by its documented contract and not modelled digit by digit.
- `Quarantine.QuarantineHolds`: requests and check cycles are atomic at one instant and provider names are distinct, so a request already past its snapshot when a taint lands is not covered.
- `Proxies.Proxy.GetHealthyProviders`: the reuse of pooled slices is not modelled.
