# k8s-ttl-controller, modelled in Dafny

k8s-ttl-controller is a Kubernetes controller that deletes objects once the
duration in their `k8s-ttl-controller.twin.sh/ttl` annotation has passed. The
duration counts from the creation timestamp, or from a
`k8s-ttl-controller.twin.sh/refreshed-at` RFC 3339 timestamp when that
annotation is present and valid.

Every pass of the controller does the following:

- discovers the resource types the API server offers;
- keeps those whose verbs allow both listing and deleting;
- lists each kept type in pages of 500, following continue tokens;
- issues one delete request and one Kubernetes event for every expired item.

A pass that does not finish within its deadline counts as a failure. After
more than ten consecutive failed passes the process panics. Every iteration
of the main loop first creates the Kubernetes clients, and panics if that
fails.

The model consists of these modules:

- `Wrappers` (wrappers.dfy): `Option` and `Result`.
- `GoStrings` (gostrings.dfy): the parts of Go's `strings` package that the
  decisions rest on, with their laws:
  - `strings.Split` on one character;
  - `strings.Join`;
  - `strings.Contains`.
- `Discovery` (discovery.dfy):
  - the discovery snapshot (`ApiResourceList`, `ApiResource`);
  - splitting a group/version string;
  - the verb filter, which works on the `%v` rendering `[create delete get list]` of the verb list;
  - the resulting targets in visiting order.
- `Expiry` (expiry.dfy):
  - the start time of an item (refreshed-at or creation);
  - the verdict on one item: not annotated, invalid TTL, expired, or not expired.
- `Sweep` (sweep.dfy):
  - what a pass does, as a trace of list requests, delete requests and events;
  - one page of items;
  - the pagination loop of one resource type, with retry on error;
  - the loop over all resource types.
- `Reconciler` (reconciler.dfy):
  - the error a pass returns;
  - the supervisor's counter of consecutive failures.

Some parts of the system are inputs to the model rather than modelled code.

- **Time.** Time is an integer count of nanoseconds, and `now` is fixed for the pass.
- **Parsers.** The duration parser and the RFC 3339 parser are partial functions passed in as parameters.
- **The API server.** The server is an oracle with two parts:
  - `list(gvr, continueToken, n)` answers the n-th list request of the pass, so a retried request may be answered differently;
  - `deleteError(gvr, namespace, name)` gives the error of a delete request, if any.
- **Fuel.** A pass may send at most `fuel` list requests. Running out of fuel stands for the sweep still running when the deadline fires.
- **The race.** Which of the sweep and the deadline timer finishes first is the input `sweepFirst`.

Each operation has a partner it is proved against:

| operation | partner |
|---|---|
| `Split` | `Join` |
| `ParseGroupVersion` | rendering `group/version` |
| the verb filter | "some verb contains the word" |
| the pagination loop | the recursive references `ListFrom` / `ListRun` (requests and replies) and `ListTrace` (the rounds of actions) |
| the loop over resource types | the recursive references `SweepFrom` (request count) and `SweepTrace` (the whole trace) |
| the pass result | the pure function `Outcome` |
| the supervisor run | runs of consecutive failures |

## Model

| member | source | states |
|---|---|---|
| GoStrings.SplitCount | main.go:112 | splitting yields one more piece than there are separators, so the piece count tested at lines 114-119 is the slash count plus one |
| GoStrings.JoinSplit | main.go:112 | joining the pieces of a split with the separator gives back the original string |
| GoStrings.SplitJoin | main.go:112 | splitting a join of separator-free pieces gives back exactly those pieces |
| GoStrings.ContainsJoin | main.go:125 | a word without the separator occurs in a joined string iff it occurs in one of the pieces |
| Discovery.GroupVersionCases | main.go:112-121 | the entry is skipped iff its group/version has two or more slashes; no slash means core group with the whole string as version; one slash splits it into group and version, neither containing a slash |
| Discovery.GroupVersionRoundTrip | main.go:112-119 | parsing `group/version` built from slash-free parts returns that group and version; parsing a bare version returns the empty group |
| Discovery.RenderedVerbsContain | main.go:124-125 | a word free of spaces and brackets occurs in the rendered verb list iff it occurs in one of the verbs |
| Discovery.VerbFilterMeaning | main.go:123-127 | a kind passes the filter iff some verb contains "list" and some verb contains "delete" |
| Discovery.DeleteCollectionPasses | main.go:125 | the verbs `list` and `deletecollection` pass the filter, because the test is substring matching |
| Discovery.ReadOnlyKindFiltered | main.go:125-127 | a kind with only `get` and `watch` is filtered out |
| Discovery.Eligible | main.go:122-129 | the targets of one entry are exactly its kinds that pass the verb filter, each addressed under the entry's group/version with the kind's name as resource |
| Discovery.Targets | main.go:108-129 | a target is visited iff it is contributed by some entry of the snapshot |
| Discovery.Gvrs | main.go:113-129 | the resource types visited are one per target, in target order, and a resource type is visited iff some target addresses it |
| Discovery.TargetsExactly | main.go:108-129 | a target is visited iff some entry has a well-formed group/version and a kind passing the filter that is addressed as that target; entries with no kinds or a malformed group/version contribute nothing |
| Expiry.StartTime | main.go:94-104 | the start time is the refreshed-at instant when that annotation is present and parses as RFC 3339, and the creation timestamp when it is absent or malformed |
| Expiry.Evaluate | main.go:146-157 | the verdict is "not annotated" iff there is no TTL annotation and "invalid" iff the TTL does not parse; it carries the annotation's text; an overshoot is positive and a remaining time is non-negative |
| Expiry.ExpiredIff | main.go:151-158 | with a parsed TTL, the item is expired iff now is strictly after start time plus TTL; the overshoot is how far past, and otherwise the verdict is "not expired" with the time remaining before the deadline |
| Expiry.ExpiredNeedsValidTtl | main.go:147-155 | only an item whose TTL annotation parses can be expired |
| Expiry.ExpiryIsStable | main.go:156 | an expired item stays expired at any later clock reading |
| Expiry.RefreshPostponesExpiry | main.go:94-100 | a valid refreshed-at takes precedence: an item past creation plus TTL but within refresh plus TTL is not expired |
| Expiry.FiveMinuteTtlHourOldPodExpired | main_test.go:38-42 | a pod created an hour ago with TTL "5m" is expired, 55 minutes past its deadline |
| Expiry.ThreeDayTtlHourOldPodNotExpired | main_test.go:45-49 | a pod created an hour ago with TTL "3d" is not expired |
| Expiry.CountdownIgnoresRefresh | main.go:172 | for a pod refreshed a minute ago with TTL "1h" and created two hours ago, the verdict is "not expired, 59 minutes left", while the countdown computed from the creation timestamp is minus one hour |
| Sweep.UnexpiredItemUntouched | main.go:147-155 | an item that is not expired causes no request and no event |
| Sweep.ExpiredItemDeletedOnce | main.go:156-168 | an expired item gets exactly one delete request, with no retry, followed by its event: `DeletedExpiredTTL` (normal) on success, `FailedToDeleteExpiredTTL` (warning) carrying "Unable to delete expired resource:" and the error on failure |
| Sweep.PageActionsShape | main.go:146-174 | for one page, the deleted objects are exactly the expired items in page order; no list request is made; every delete is immediately followed by its event and every event by a delete; every request goes to the page's resource type |
| Sweep.OnlyExpiredPodsDeleted | main_test.go:75-83 | of four pods (5m and an hour old; 3d and an hour old; 2d and 72 hours old; unannotated), exactly the first and third are deleted, in that order |
| Sweep.ReconcileResource | main.go:129-177 | (`ListOutcome`) the loop's requests and replies are exactly the reference listing `ListFrom` from the empty token; it reports done iff the latest reply was a successful page with an empty continue token; the count agrees with `ListRun`; and the trace is exactly `ListTrace`: request by request, the list request and then the deletes and events of that reply's page, before the next list request is sent |
| Sweep.ListTraceAccounts | main.go:134-174 | (`Accounts`) the list requests of `ListTrace` carry exactly the tokens of `ListFrom`, its deletions are the expired items of all successful pages in order, deletes and events stay paired, and every request addresses this resource type, list requests asking for ListLimit (500) items |
| Sweep.ListFromThreaded | main.go:134-142 | the listing sends the given token first and then each page's continue token, the same token again after an error; each reply is the server's answer to its request; no reply before the latest is a last page; it makes at least one request when it may, and uses all of its fuel unless it ended with a last page |
| Sweep.ListRun | main.go:134-142 | the listing of one resource type makes at most `fuel` requests, and all `fuel` of them unless it ended with a last page |
| Sweep.ListRunCounts | main.go:134-142 | the request count and end-of-listing flag of the counting reference agree with the full listing |
| Sweep.SweepTypes | main.go:108-181 | (`SweepOutcome`) resource types are listed in order, each to the end; `visited` is the longest prefix of them that `SweepFrom` lists to the end, all of them when the sweep finished; an unfinished sweep has spent all its fuel inside the next type, the first it could not finish; the totals equal the reference `SweepFrom`; and the trace is exactly `SweepTrace`, the listings' rounds type after type, so deletes and events stay paired and every request addresses one of the swept resource types |
| Sweep.VisitedIsLongest | main.go:107-133 | the `visited` of any sweep outcome is the longest prefix of the resource types that `SweepFrom` lists to the end: every longer prefix stops unfinished |
| Sweep.SweepFromUnfinished | main.go:107-133 | a sweep that runs out of fuel inside some list of resource types stops there, whatever types follow |
| Sweep.SweepFromConcat | main.go:107-133 | sweeping one list of resource types and then another: once the first list is listed to the end with some number of requests, the sweep goes on with the second from the next request and with the fuel left |
| Sweep.SweepTraceDeletions | main.go:146-168 | the objects a sweep deletes are exactly the expired items of its listings' successful pages, listing by listing, each once |
| Sweep.SweepTraceTokens | main.go:131-142 | the list requests of a sweep carry exactly its listings' tokens, each listing starting from the empty token |
| Sweep.SweepTraceAnswered | main.go:156-168 | throughout a sweep every delete is immediately followed by its event and every event follows a delete; every request addresses one of the swept resource types |
| Sweep.SweptTokensCount | main.go:134-142 | a sweep sends as many list requests as the counting reference `SweepFrom` says |
| Sweep.DoReconcile | main.go:107-183 | the pass goes over `swept`, which is `Gvrs(Targets(snapshot))`; (`SweepOutcome`) it lists every resource type of `swept` to the end, in order, when it finishes; otherwise it spends all its fuel, `visited` is the prefix of them listed to the end, and the next type is the one whose listing did not end; its trace is exactly `SweepTrace` over those resource types, with the same trace guarantees |
| Reconciler.Reconcile | main.go:68-91 | a discovery error is returned unchanged with no request made; otherwise the pass succeeds iff the sweep finished and beat the timer, and fails with "timed out" otherwise; the result equals `Outcome`, so it never depends on delete errors; after a successful discovery the trace is exactly `SweepTrace` over the snapshot's resource types |
| Reconciler.Step | main.go:50-59 | a failed pass increments the counter and panics iff the counter exceeds 10; a successful pass resets it to 0 |
| Reconciler.RunInvariant | main.go:50-59 | while the supervisor lives, its counter is the number of trailing consecutive failures and is at most 10, and no run of 11 consecutive failures has occurred; once it has panicked, such a run has occurred |
| Reconciler.PanicsIffLongFailureRun | main.go:25 | the failure counter panics the process iff some run of more than `MaximumFailedExecutionBeforePanic` (10) consecutive passes failed |
| Reconciler.PanicsOnEleventhFailure | main.go:52-55 | from a zero counter, ten failed passes are survived with counter n and the eleventh panics |
| Reconciler.SuccessResets | main.go:56-59 | a successful pass leaves a living supervisor with counter 0 |

## Left out

- client.go: creating the Kubernetes clients is I/O and is not modelled. The main loop creates them anew at the top of every iteration (main.go:45-48), so a creation failure panics the process at whichever iteration it happens, whatever the failure counter says.
- Reconciler.Run: models only the failure counter; it folds the results of passes and knows nothing of client creation.
- Reconciler.PanicsIffLongFailureRun: covers only the panic driven by the failure counter (main.go:52-55), not the panic on a failed client creation at main.go:45-48.
- The event manager (kevent) is modelled only as the events a pass emits. Its own calls to the API server are not modelled, and neither is their failure.
- The duration grammar ("5m", "3d", "1d2h") and the RFC 3339 grammar are not modelled. Both parsers are parameters, and only their answers matter.
- Time is not modelled as a clock. The source reads the clock anew for every item; the model fixes `now` for a pass.
- Durations in the source are 64-bit nanosecond counts, and adding one to a time saturates. The model uses unbounded integers.
- Expiry.Evaluate: the overshoot is exact. The source rounds it to the second, but only for a log line.
- The deadline goroutine, the result channel and `select` are replaced by the input `sweepFirst` and by fuel. A sweep that loses the race keeps running in the background of the source. The model does not continue it into the next pass.
- The number of list requests in a pass is bounded by fuel. The source can retry a failing list request forever, and only the 20-minute deadline ends the pass.
- A failed list request is modelled as returning no page. The source then sees a nil list and retries with the same continue token.
- The 60-second list timeout is not modelled. A request that times out is a list error like any other.
- Sleeps, logging and the `DEBUG` flag have no observable effect here and are left out.
- The five-minute pause between passes is not modelled. `Reconciler.Run` only folds the results of the passes.
- Discovery is an input. Its partial results, with an error next to some groups, are not modelled; the model has either a snapshot or an error.
- The discovery snapshot covers every resource type; no allow-list or deny-list of types is applied, as the code at main.go:108-129 shows.
- The "will expire in" countdown at main.go:172 is only logged. It is modelled for the finding below and plays no part in any decision.

## Findings

| source | as written | input that shows it | evidently intended | confidence | as-written member | corrected member |
|---|---|---|---|---|---|---|
| main.go:172 | the countdown for an item that has not expired is creation timestamp plus TTL minus now | TTL "1h", created two hours ago, refreshed-at one minute ago: the item is not expired, yet the log says it will expire in -1h0m0s | the countdown starts from the same start time (getStartTime) as the expiry test at main.go:156, which leaves 59 minutes | not executed; high | Expiry.CountdownIgnoresRefresh | Expiry.Evaluate |
