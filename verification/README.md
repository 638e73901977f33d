# pk-core verification

A Dafny model of the six components of pk-core whose behaviour is hard to see from the code, with proofs of
what they guarantee. `dafny verify dfyconfig.toml` checks everything.

| files | component |
|---|---|
| `Version.dfy` | the version-constraint language of module ports |
| `Graph.dfy`, `Selection.dfy`, `Ordering.dfy`, `Providers.dfy`, `Compose.dfy`, `Arrangement.dfy` | the module composition solver |
| `OutboxStore.dfy`, `SqlStore.dfy`, `OutboxProtocol.dfy`, `OutboxRefinement.dfy`, `OutboxRuns.dfy`, `SqlRuns.dfy`, `OutboxDrain.dfy`, `DrainRuns.dfy` | the transactional outbox |
| `LruSpec.dfy`, `LruReadBack.dfy`, `LruCache.dfy` | the in-memory LRU and TTL cache |
| `TokenBucket.dfy` | the token-bucket rate limiter |
| `Breaker.dfy`, `Bulkhead.dfy`, `Retry.dfy` | circuit breaker, bulkhead and retry |
| `Text.dfy`, `Listing.dfy`, `Results.dfy` | strings, ordered and duplicate-free sequences, filtered and flattened lists, error results |

Code that the repository writes with loops and mutable state is modelled with loops and mutable state: the
backtracking search pushes and pops edges in two maps, the cache rewires `prev` and `next` pointers, the stores
update entries in place. Each such method is proved against a function of its old state, and the theorems are
lemmas about those functions and about runs of steps.

## Main results

- **Composition.** Given valid declarations, `Compose` succeeds exactly when the modules can be arranged so that every
  required dependency which another module may serve is served by a module strictly earlier; in the plan every required
  dependency is served by the module itself or a module strictly earlier. The search under it is sound and complete,
  finds the first acyclic selection in preference order, and restores its maps exactly; the emitted order is the
  lexicographically least one. Choices come in the order of the declarations, and their providers in the declared
  order of preference.
- **Outbox.** For any number of dispatchers over either store and any interleaving, an entry is accepted by the bus
  at most once if dispatchers finish before their claims expire; claims exclude each other without that assumption;
  with a single dispatcher and saves at any time, an entry is delivered if and only if the bus accepted it, gets at
  most maxRetries publishes, and a bounded number of passes after the last save ends every entry. Whole runs over
  either store are runs of the protocol, and passes are parts of such runs, so its guarantees are stated of the
  entries and rows themselves.
- **Cache.** The pointer structure refines a sequence in order of recency; over whole runs the cache with the
  smaller cap is a subsequence of the one with the larger. What was set is read back exactly until its time to live
  is over, as long as fewer other keys than the cap are used in between.
- **Token bucket.** The window bound holds for every trace, and reaping is invisible, if and only if reaping is off
  or idleTTL * rate >= burst; under that condition a call is admitted exactly if that keeps the bound for every
  window that ends with it, and the retry-after is exact.
- **Breaker, bulkhead.** Their counters are right under every interleaving. The state of the breaker and whom it
  lets through are given in terms of the history of calls, however they overlap; without overlap it is the
  documented machine. The bulkhead gives a slot exactly when fewer than MaxConcurrent operations run.
- **Versions.** Parsing is inverse to writing; caret, tilde and lists mean what they say, compared with sections 2
  and 11 of Semantic Versioning 2.0.0 without pre-release ordering.
- **Retry.** The loop's outcome is determined; delays and total waits stay in the documented bands.

## Where code and documentation differ

The model follows the code. The first five differences are proved with a failing input and an exact condition.

- pkg/module/compose_test.go:177 wants false cycles avoided. Where another module may serve a dependency, the module's
  own offer is never picked (pkg/module/compose.go:236-248), so modules that could be ordered may be refused as a cycle
  (`Arrangement.SelfServiceMissed`, `Arrangement.SortableIff`).
- pkg/resilience/circuitbreaker/doc.go:26-28 says that an open breaker rejects every call until the timeout. A probe
  of an earlier episode that succeeds late closes it at once (`Breaker.LateProbeClosesEarly`, `Breaker.StaysOpenIff`).
- pkg/resilience/bulkhead/doc.go:27-31 and bulkhead.go:31-34 speak of callers waiting for a slot. A queued caller
  stays in the count until its operation has ended (`Bulkhead.RefusedWithEmptyQueue`, `Bulkhead.RefusedIff`).
- pkg/resilience/retry/retry.go:37 says that MaxDelay caps any single delay. Jitter is applied after the cap
  (`Retry.JitterPassesCap`, `Retry.CapHoldsIff`).
- pkg/security/ratelimit/tokenbucket.go:35-39 lets any IdleTTL be chosen to save memory. A short one lets a key
  exceed its rate (`TokenBucket.WindowExceeded`, `TokenBucket.WindowBoundIff`).
- pkg/infrastructure/cache/memory.go:235-236 says that the sweep walks the list from the tail. It walks the map; the
  result is the same (`LruCache.MemoryCache.Sweep`).

## Assumptions

- Clocks are arguments. Calls on one object are applied in the order in which they hold its mutex; where a property
  needs readings that do not run backwards, its lemma says so.
- The bus, operations, IsFailure and IsRetryable are arbitrary functions of what they are given; contexts are
  arbitrary cancellation flags at the points where the code looks.
- Emitters do not use an envelope ID again (pkg/event/event.go:37-38), where the drain and the protocol need it;
  `Save` does not check this and `MemoryStore` follows the code, which finds the last entry saved under an ID.
- A module's interface methods return the same data each time they are called.
- Floating-point numbers are reals, and a random draw is any real in [0, 1).

## Model

| member | source | states |
|---|---|---|
| Version.ParseSemver | pkg/module/dependency.go:142-186 | Parses a version text: which texts are rejected and with which error, and the three components of the others (missing ones are 0). |
| Version.ParseSegments | pkg/module/dependency.go:160-185 | The segment loop writing major, minor and patch one by one yields the components of the dot-separated decimals, or the error of the first bad segment. |
| Version.RenderParses | pkg/module/dependency.go:142-186 | Any version written in decimal, with one to three components below 2^63, optional leading `v`, optional non-blank `-` or `+` suffix and surrounding white space, parses to its major, minor and patch, missing ones being 0. |
| Version.ParsedIsRendered | pkg/module/dependency.go:142-186 | Conversely every text that parses is such a rendering, so parsing accepts exactly the renderings. |
| Version.DecimalRoundTrip | pkg/module/dependency.go:173-176 | The decimal text of a number denotes that number and has no leading zero. |
| Version.DecimalCanonical | pkg/module/dependency.go:173-176 | A non-empty digit string without a leading zero is the decimal text of its value, so no two segments denote one number. |
| Version.DecimalNotation | pkg/module/dependency.go:173-176 | The numerals are the usual ones: digit by digit, most significant first. |
| Version.ParsedInRange | pkg/module/dependency.go:176-183 | Components of a parsed version lie between 0 and 2^63-1. |
| Version.CmpIsPrecedence | pkg/module/dependency.go:131-140 | The three-way difference of two parsed versions has the sign of their lexicographic precedence; the 64-bit subtraction cannot overflow on parsed versions. |
| Version.CmpTotalOrder | pkg/module/dependency.go:131-140 | The comparison is a total order on versions: reflexive, antisymmetric, transitive, total. |
| Version.AcceptsMeaning | pkg/module/dependency.go:193-211 | Each comparator operator accepts exactly the versions that stand in the written relation to its operand. |
| Version.ParseVersionConstraint | pkg/module/dependency.go:213-254 | Parses a constraint text: blank and `*` give no comparators, caret and tilde give a pair, anything else a comma-separated list; errors included. |
| Version.ParseComparators | pkg/module/dependency.go:240-253 | The list loop yields one comparator per comma-separated segment, or the error of the first bad one. |
| Version.BelowCaret | pkg/module/dependency.go:256-265 | A version not below b is below the caret upper bound of b exactly when it agrees with b up to and including the first nonzero component of b, even where the bound wraps around 64 bits. |
| Version.BelowTilde | pkg/module/dependency.go:234-238 | A version not below b is below the tilde upper bound of b exactly when it has the major and minor of b, even where the bound wraps. |
| Version.CaretMeaning | pkg/module/dependency.go:97-115 | `^b` matches v exactly when v >= b and v agrees with b up to and including the first nonzero component of b. |
| Version.TildeMeaning | pkg/module/dependency.go:97-115 | `~b` matches v exactly when v >= b and v has the major and minor of b. |
| Version.ComparatorText | pkg/module/dependency.go:267-282 | An operator (or none, meaning equality) followed by a version text denotes that operator on that version; the order in which prefixes are tried never confuses `>` with `>=`. |
| Version.OperatorMeaning | pkg/module/dependency.go:267-282 | End to end: an operator and a version, or a bare version, matches exactly the versions in the written relation to it; bare means equal. |
| Version.AnyVersionMatches | pkg/module/dependency.go:213-217 | The empty constraint and `*` are well formed and match every valid version. |
| Version.RangeValidIff | pkg/module/dependency.go:218-239 | A caret or tilde constraint is well formed exactly if a version follows its sign. |
| Version.ListIsIntersection | pkg/module/dependency.go:240-253 | A comma-separated list, cut anywhere, is well formed exactly when both halves are, and then matches exactly what both halves match. |
| Graph.StuckIsCyclic | pkg/module/compose.go:292-314 | If every node of a non-empty set has a predecessor in the set, some node reaches itself: what an exhausted Kahn queue leaves behind is cyclic. |
| Graph.TopologicalIsAcyclic | pkg/module/compose.go:160-175 | A graph with an order that puts every provider before its consumer has no node that reaches itself. |
| Graph.TopologicalExists | pkg/module/compose.go:160-175 | Conversely every acyclic graph has such an order. |
| Graph.RepresentationUnique | pkg/module/compose.go:271-282 | The counts and adjacency lists of a multigraph are determined by it, so undoing an edge restores both maps exactly. |
| Graph.RepresentsPush | pkg/module/compose.go:272-273 | Incrementing the consumer count and appending to the provider list represents the graph with the extra edge, duplicates included. |
| Graph.RepresentsPop | pkg/module/compose.go:277-281 | Cutting the list (and deleting it when empty) and decrementing the count represents the graph without its last edge. |
| Selection.IsAcyclic | pkg/module/compose.go:292-314 | Given maps that count the multi-edges of a graph exactly, returns true if and only if no node reaches itself; the loop terminates. |
| Selection.Decrement | pkg/module/compose.go:306-311 | The inner loop keeps the Kahn invariant: counts are the edges from unplaced nodes, the queue holds exactly the unplaced nodes with none. |
| Selection.CyclicPrefixIsDeadEnd | pkg/module/compose.go:264-266 | Picks whose graph is already cyclic extend to no acyclic selection, so pruning loses no solution. |
| Selection.Search.Push | pkg/module/compose.go:272-273 | Taking a provider makes the maps hold the edges of the extended picks. |
| Selection.Search.Pop | pkg/module/compose.go:277-281 | Undoing it makes the maps hold the edges of the picks before. |
| Selection.Search.Choose | pkg/module/compose.go:262-284 | The backtracking closure: on success the maps hold the first acyclic selection, in preference order, extending the picks; on failure none extends them and both maps are exactly as before. |
| Selection.AcyclicProviderSelection | pkg/module/compose.go:258-290 | Fails exactly when no way of picking one provider per choice is acyclic; otherwise returns the counts and adjacency of the first acyclic selection in lexicographic preference order. |
| Selection.FirstSolutionUnique | pkg/module/compose.go:254-257 | The preference order has one first acyclic selection. |
| Ordering.KahnOrder | pkg/module/compose.go:152-175 | The sorted-queue loop emits all modules exactly when the graph is acyclic, and then always the least module whose providers are all placed. |
| Ordering.PlaceNext | pkg/module/compose.go:161-174 | One round places the head of the queue and releases its dependents, keeping the queue sorted and the Kahn invariant. |
| Ordering.GreedyIsLeast | pkg/module/compose.go:152-175 | The emitted order precedes or equals, lexicographically, every other order that respects the edges. |
| Ordering.LeastUnique | pkg/module/compose.go:152-175 | There is one such order, so no iteration order of a map can influence the result. |
| Providers.NormalizeModuleRefs | pkg/module/compose.go:201-219 | Succeeds exactly when no module is nil, every ID is non-blank without inner white space, and the trimmed IDs are distinct; then pairs each module with its trimmed ID. Otherwise the error is that of the first module at fault. |
| Providers.NamedIff | pkg/module/types.go:31-38 | An ID is accepted exactly if something is left of it without the white space around it, and that has no blank, tab or line break inside. |
| Providers.ProviderIndex | pkg/module/compose.go:359-379 | Succeeds exactly when every announced port has a name and a valid version; then lists for every port exactly the announcements of it, with multiplicity, ordered by module ID. |
| Providers.CompatibleProviders | pkg/module/compose.go:381-398 | Returns, sorted, the module IDs whose announced versions match the constraint; errors exactly on an invalid constraint or version. |
| Providers.IndexOrderIrrelevant | pkg/module/compose.go:373-397 | The compatible providers do not depend on how the unstable sort orders announcements of one module. |
| Providers.CompatibleMembers | pkg/module/compose.go:359-398 | A module is a compatible provider exactly when it announces the port with a version that the constraint matches. |
| Providers.SatisfyingIsAdmissible | pkg/module/compose.go:410-434 | The acceptable providers are exactly: the preferred one if compatible; otherwise the compatible listed fallbacks; and, when there is no preferred one and no listed fallback is compatible, every compatible one. |
| Providers.TrimStringsLoop | pkg/module/dependency.go:117-125 | The loop keeps the non-blank values, trimmed, in order. |
| Providers.MatchingProvidersLoop | pkg/module/compose.go:426-434 | The loop keeps the allowed providers that are candidates. |
| Providers.MatchingInOrder | pkg/module/compose.go:426-434 | What it keeps are exactly the listed names that are candidates, trimmed, in the order in which they are listed, repetitions included. |
| Providers.SelectSatisfying | pkg/module/compose.go:410-424 | The preference step: the preferred provider alone if it is a candidate, else the fallbacks among the candidates in the order in which they are listed, and without a preference and without a fallback among the candidates, all of them as they are. |
| Providers.DependencyChoices | pkg/module/compose.go:221-252 | Succeeds exactly when all dependencies are well formed; yields one choice per required dependency that has an acceptable provider besides the module itself. |
| Providers.DependencyChoice | pkg/module/compose.go:225-249 | The loop body for one dependency. |
| Providers.ChoicesSound | pkg/module/compose.go:236-248 | Every choice names modules of the set, so the search never leaves the graph. |
| Providers.ChoicesComplete | pkg/module/compose.go:236-248 | Every required dependency with an acceptable provider other than the module itself gives a choice, whose providers are exactly the other acceptable ones, in the declared order: listed fallbacks as they are listed, otherwise by ID. |
| Providers.SelectedInOrder | pkg/module/compose.go:236-248 | Dropping the module itself keeps the order: the preferred provider alone; the listed fallbacks as they are listed; or by ID. |
| Providers.ChoicesOrder | pkg/module/compose.go:221-252 | The choices are those of the first module, then those of the second, and so on; within a module they follow its dependencies as it declares them, one for each required dependency that another module may serve and none for the others. |
| Compose.NormalizeIDs | pkg/module/compose.go:67-82 | Trims, drops blanks and keeps the first of equal IDs, in order. |
| Compose.WantedFacts | pkg/module/compose.go:67-82 | The result has no duplicates and contains exactly the trimmed non-blank IDs given. |
| Compose.WantedInOrder | pkg/module/compose.go:67-82 | Each of them stands where it is first given, so the result keeps the order of the requests. |
| Compose.Sort | pkg/module/compose.go:128-189 | Succeeds exactly when modules, ports and dependencies are well formed and some selection of providers is acyclic; the result is a permutation of the modules in the least order respecting the first acyclic selection. If only the selection fails, the error names all modules, sorted. The second cycle error is unreachable. |
| Compose.SortDetermined | pkg/module/compose.go:128-189 | The result is a function of the argument, and its ID sequence is lexicographically least among all orders that respect the selection. |
| Compose.IndexByID | pkg/module/compose.go:133-136 | The map has exactly the module IDs and finds each module under its own. |
| Compose.SortedModuleIDs | pkg/module/compose.go:324-331 | The keys of the map, sorted, each once, whatever order the map yields them in. |
| Text.LeAtDifference | pkg/module/compose.go:324-331 | IDs are ordered character by character: a prefix comes first, and at the first difference the smaller character decides. |
| Compose.Validate | pkg/module/compose.go:86-125 | Succeeds exactly when modules and ports are well formed and every dependency is valid and, if required, has an acceptable provider in the set. If only dependencies fail, the error reports every failing one with its kind, module by module. |
| Compose.CheckModule | pkg/module/compose.go:96-117 | The inner loop reports each failing dependency of one module and no other. |
| Compose.CheckDependency | pkg/module/compose.go:97-116 | One dependency: no problem exactly if it is met; otherwise a blank port name, a malformed constraint, no compatible provider, or none that the preference admits. |
| Compose.EarlierProvider | pkg/module/compose.go:221-252 | In a sorted list, a required dependency that some other module may serve is served by an acceptable module strictly earlier. |
| Compose.ServedInOrder | pkg/module/compose.go:128-189 | In a sorted list every required dependency that can be served is served by the module itself or by a module strictly earlier. |
| Compose.BuildAll | pkg/module/compose.go:42-49 | Builds the requested modules in order, or fails with the error of the first that cannot be built. |
| Compose.BuildsExactly | pkg/module/catalog.go:219-236 | A module is built exactly if the catalog has an entry under the ID and its constructor gives a module that bears this very ID. |
| Compose.CollectParts | pkg/module/compose.go:59-63 | The providers are those of the first module, then those of the second, and so on, with nothing left over; likewise the invocations. |
| Compose.ComposePlan | pkg/module/compose.go:30-65 | Succeeds exactly when the catalog exists, all requested modules can be built, all declarations are valid, every required dependency has an acceptable provider, and some selection is acyclic. A plan is a permutation of the requested modules in which every required dependency is served by the module itself or a strictly earlier one; its providers and its invocations are cut into those of its modules, in order. A missing catalog and the first module that cannot be built are reported. |
| Compose.PlanIDs | pkg/module/compose.go:34-40 | A plan holds every requested module once and no other: those the caller names, or the defaults of the catalog. |
| Arrangement.SelectionArranges | pkg/module/compose.go:160-175 | Any order that respects the edges of a selection is an arrangement: every required dependency which another module may serve is served by a module strictly earlier. |
| Arrangement.ChoicesComeFrom | pkg/module/compose.go:225-249 | Every choice comes from a required dependency of a module, and leaves at least one provider. |
| Arrangement.ArrangementSelects | pkg/module/compose.go:258-290 | Conversely an arrangement gives an acyclic selection: for every choice a provider that stands before the consumer. |
| Arrangement.SortableIff | pkg/module/compose.go:128-189 | Given well-formed declarations, sorting succeeds exactly when the modules can be arranged. |
| Arrangement.ComposesIff | pkg/module/compose.go:30-65 | Composition succeeds exactly when the requested modules can be built, all declarations are valid, every required dependency has an acceptable provider, and the modules can be arranged. |
| Arrangement.SelfServiceMissed | pkg/module/compose.go:236-248 | A concrete pair of modules whose order serves every required dependency from the module itself or an earlier one, and which is nevertheless refused as a cycle. |
| OutboxStore.Validate | pkg/event/event.go:92-112 | Accepts exactly the envelopes with ID, type and source, and fills in the time and the media type that are missing. |
| OutboxStore.NormalizedOnce | pkg/event/event.go:90-91 | Validating twice is validating once, whatever the clock shows the second time. |
| OutboxStore.NormalizedFills | pkg/event/event.go:102-111 | A missing time becomes the reading, a missing media type the default; what is given stays. |
| OutboxStore.MemoryStore.Save | pkg/event/outbox/memory_store.go:61-83 | Appends one fresh pending entry with the normalised envelope, unless the context is cancelled, the envelope invalid or its idempotency key already used, which leave the store unchanged and give the matching error. |
| OutboxStore.MemoryStore.ClaimBatch | pkg/event/outbox/memory_store.go:88-114 | Leases exactly the first `limit` entries that are neither delivered nor dead nor leased past now, until now + ttl, and returns them with their attempts; nothing else changes. |
| OutboxStore.ClaimLeasesFirstFree | pkg/event/outbox/memory_store.go:98-113 | A claim leases exactly as many entries as are asked for and free, every free entry before a leased one is leased too, and no claim whose reading is before the end of the lease takes a leased entry again. |
| OutboxStore.TakenIff | pkg/event/outbox/memory_store.go:98-113 | Asked for enough, a claim takes an entry exactly if it is neither delivered nor dead and its lease has ended; so a leased entry can be taken again exactly from the end of its lease on. |
| OutboxStore.BatchInOrder | pkg/event/outbox/memory_store.go:98-113 | The batch lists the entries that were taken, with their attempts, in insertion order. |
| OutboxStore.MemoryStore.MarkDelivered | pkg/event/outbox/memory_store.go:134-144 | Changes only the entry found under the ID (the last one saved with it), setting its delivered flag. |
| OutboxStore.MemoryStore.MarkFailed | pkg/event/outbox/memory_store.go:151-163 | Changes only that entry: one more attempt, the error text, and its lease released. |
| OutboxStore.MemoryStore.MarkDead | pkg/event/outbox/memory_store.go:119-130 | Changes only that entry: dead, with the error text. |
| OutboxProtocol.StepKeeps | pkg/event/outbox/outbox.go:255-289 | Every timely step of any dispatcher (select, row claim, batch claim, publish, mark, lost mark, break-off), save or clock tick keeps the invariant: live claims are recorded, exclusive, and a published entry is delivered or about to be marked by its one live holder. |
| OutboxProtocol.RunKeeps | pkg/event/outbox/outbox.go:255-289 | So every state of every run satisfies it. |
| OutboxProtocol.AtMostOnce | pkg/event/outbox/outbox.go:255-289 | For any number of dispatchers and any interleaving in which each finishes an entry before its claim expires and marks what the bus accepted, the bus accepts each entry at most once, and no entry is both delivered and dead; delivered entries were accepted, dead ones were not. |
| OutboxProtocol.LeaseHolds | pkg/event/outbox/memory_store.go:145-163 | A lease recorded by a claim stays on the entry until a MarkFailed of that entry, however steps interleave and however late dispatchers run. |
| OutboxProtocol.ClaimsExclusive | pkg/event/outbox/memory_store.go:85-113 | For both stores: after a claim leased an entry until t, no later claim with a clock reading before t gets it unless a MarkFailed of it came between. No timeliness is assumed. |
| SqlStore.Table.SelectCandidates | pkg/event/outbox/sql_store.go:112-119 | The candidate query returns the first `limit` claimable rows by emission time and ID, with the attempts of that moment. |
| SqlStore.SelectionIff | pkg/event/outbox/sql_store.go:112-119 | Asked for enough, the query finds exactly the rows that are neither delivered nor dead and whose lease has ended. |
| SqlStore.Table.ClaimOne | pkg/event/outbox/sql_store.go:126-130 | The compare-and-set touches a row only if it is still claimable at the reading, and reports whether it did. |
| SqlStore.ClaimedUntilEnd | pkg/event/outbox/sql_store.go:126-130 | A claimed row can be claimed again exactly from the end of its lease on. |
| SqlStore.Table.ClaimBatch | pkg/event/outbox/sql_store.go:197-245 | With arbitrary changes by others between the statements, returns exactly the selected candidates that were still claimable when their update ran, with the attempts read by the select; a failing select changes nothing, and a failing update ends the claim with the rows updated so far still leased. |
| SqlStore.WonInOrder | pkg/event/outbox/sql_store.go:229-244 | The claim returns its candidates in the order of the query, without those lost to others. |
| SqlStore.Table.MarkDelivered | pkg/event/outbox/sql_store.go:98-100 | Sets delivered_at of that row only. |
| SqlStore.Table.MarkFailed | pkg/event/outbox/sql_store.go:106-110 | One more attempt, the error text and a released claim, on that row only. |
| SqlStore.Table.MarkDead | pkg/event/outbox/sql_store.go:132-136 | The dead sentinel and the error text, on that row only. |
| SqlStore.MarksRecord | pkg/event/outbox/sql_store.go:98-136 | The error text is that of the last failure or burial; emission times and other rows stay. |
| SqlStore.SelectIsStep | pkg/event/outbox/sql_store.go:201-227 | The query is an enabled selection step of the protocol. |
| SqlStore.ClaimOneIsStep | pkg/event/outbox/sql_store.go:229-243 | The claiming update and the row-claim step of the protocol change the same rows in the same way. |
| SqlStore.MarksAreSteps | pkg/event/outbox/sql_store.go:175-191 | The marking updates are the marking steps of the protocol; the delivering one exactly if its timestamp is positive, unless the row is gone or already dead. |
| OutboxDrain.Outbox.Publish | pkg/event/outbox/outbox.go:146-161 | Saves at most one entry, with the envelope normalised once; a duplicate idempotency key is reported as success; a stopped outbox refuses. |
| OutboxDrain.Outbox.DispatchOnce | pkg/event/outbox/outbox.go:255-289 | A pass under a context that may end at any point where it is looked at: nothing if it ends before the claim; otherwise the claimed entries get their outcomes in order, and the one at hand when it ends may be published without being marked. What the outcomes are is stated by PassAnswers and DrainRuns.PassIsRun. |
| OutboxDrain.Outbox.DispatchBatch | pkg/event/outbox/outbox.go:265-288 | The loop: each entry is dead if its attempts are used up, else delivered or failed as the bus answers. |
| OutboxDrain.LivePassIsWhole | pkg/event/outbox/outbox.go:255-289 | Under a context that stays live the whole batch is published and marked. |
| OutboxDrain.Outbox.DispatchEntry | pkg/event/outbox/outbox.go:265-288 | The loop body: at most one publish, then exactly one mark, which does nothing if the context has ended. |
| OutboxDrain.PassIsPointwise | pkg/event/outbox/outbox.go:255-289 | With distinct IDs a pass rewrites exactly the claimed entries, each by itself. |
| OutboxDrain.PassAnswers | pkg/event/outbox/outbox.go:269-287 | Of the entries a pass takes: one with attempts left is delivered if and only if the bus accepts it, and otherwise has one more attempt, the text of the refusal and no lease; one without is dead and not sent. All others are unchanged. |
| OutboxDrain.PublishedInOrder | pkg/event/outbox/outbox.go:265-282 | Entries are handed to the bus in the order of the batch, those without attempts left excepted. |
| OutboxDrain.PassProgress | pkg/event/outbox/outbox.go:255-289 | Unless everything is terminal, a pass strictly lowers the sum of maxRetries + 1 - attempts over the non-terminal entries, whatever the bus answers. |
| OutboxDrain.RunProgress | pkg/event/outbox/outbox.go:215-236 | After k passes everything is terminal or the sum has fallen by at least k. |
| OutboxDrain.Drains | pkg/event/outbox/outbox.go:215-236 | From any store whose entries are settled, as many passes as the sum make every entry terminal. |
| OutboxDrain.PassPublishes | pkg/event/outbox/outbox.go:269-287 | In one pass an entry is published exactly as often as its record counts. |
| OutboxDrain.OpsAccount | pkg/event/outbox/outbox.go:142-161 | From an empty store, for every sequence of saves and passes in any order: IDs stay distinct, entries stay settled, every ID is published exactly as often as its entry records, and nothing is published that was not saved. |
| OutboxDrain.RunPublishes | pkg/event/outbox/outbox.go:74-82 | So each entry, whenever it was saved, is published at most maxRetries times whatever the bus answers, and is dead only with attempts equal to maxRetries. |
| OutboxDrain.OpsTruthful | pkg/event/outbox/outbox.go:269-287 | After any sequence of saves and passes an entry is delivered if and only if the bus accepted it, which it then did once, and its attempts are the publishes that the bus refused. |
| OutboxDrain.HistoryDrains | pkg/event/outbox/outbox.go:215-236 | After any sequence of saves and passes, once nothing more is saved, as many passes as the sum, which is at most maxRetries + 1 for each entry, make every entry terminal. |
| OutboxRefinement.SaveIsStep | pkg/event/outbox/memory_store.go:61-83 | Saving an envelope with a new ID is the save step of the protocol. |
| OutboxRefinement.ClaimBatchIsStep | pkg/event/outbox/memory_store.go:88-114 | The atomic claim of the memory store is an enabled claim step of the protocol. |
| OutboxRefinement.MarksAreSteps | pkg/event/outbox/memory_store.go:119-163 | The marks of the memory store are the marking steps of the protocol. |
| OutboxRefinement.LateMarkPublishesTwice | pkg/event/outbox/outbox.go:84-87 | The timeliness requirement is needed: one dispatcher that overruns its claim leads to a second accepted publish. |
| OutboxRuns.ActionIsStep | pkg/event/outbox/outbox.go:255-289 | Every call of the memory store, publish and clock tick, by whichever dispatcher, is a step of the protocol that shows the new entries. |
| OutboxRuns.SystemRunIsRun | pkg/event/outbox/outbox.go:255-289 | Every interleaving of saves, claims, publishes and marks by any number of dispatchers over the memory store is a run of the protocol. |
| OutboxRuns.StoreAtMostOnce | pkg/event/outbox/outbox.go:84-87 | At any moment of such a run in which dispatchers are timely, every entry of the memory store was accepted by the bus at most once and is not both delivered and dead; delivered ones were accepted, dead ones were not. |
| OutboxRuns.StoreClaimsExclusive | pkg/event/outbox/memory_store.go:85-113 | If two claims lease one entry of the memory store with no MarkFailed of it between them, the second read the clock at or after the end of the first lease. |
| DrainRuns.PassIsRun | pkg/event/outbox/outbox.go:255-289 | However long its context lives, a pass is a series of calls that any run of the memory store can go on with: claim, then for each entry a publish with the answer of the bus followed by the mark for that answer, or a burial; afterwards the store is as DispatchOnce leaves it. |
| DrainRuns.LivePassIsTimelyRun | pkg/event/outbox/outbox.go:255-289 | Under a live context all these calls are timely, so what holds of timely runs, at most one accepted publish in particular, holds of passes amid any other calls. |
| SqlRuns.ActionIsStep | pkg/event/outbox/sql_store.go:197-256 | Every statement on the table, publish and clock tick is a step of the protocol that shows the new rows. |
| SqlRuns.SystemRunIsRun | pkg/event/outbox/sql_store.go:197-256 | Every interleaving of the statements and publishes of any number of dispatchers over the table is a run of the protocol. |
| SqlRuns.TableAtMostOnce | pkg/event/outbox/outbox.go:84-87 | At any moment of such a run in which dispatchers are timely, the bus accepted every row at most once; rows marked delivered were accepted, dead ones were not. |
| SqlRuns.TableClaimsExclusive | pkg/event/outbox/sql_store.go:121-130 | If two row updates claim one row with no MarkFailed of it between them, the second used a clock reading at or after the end of the first lease, however selects and updates interleave. |
| SqlRuns.GotIsWon | pkg/event/outbox/sql_store.go:229-244 | In such a run, what a claim returns is what its candidates win against the table as each of its row updates found it. |
| LruCache.LruList.Init | pkg/infrastructure/cache/memory.go:76-79 | The empty ring. |
| LruCache.LruList.PushFront | pkg/infrastructure/cache/memory.go:82-87 | Keeps the ring well formed in both directions and puts the node first. |
| LruCache.LruList.Remove | pkg/infrastructure/cache/memory.go:91-99 | Unlinks exactly that node, keeping order and ring; an unlinked node is left alone. |
| LruCache.LruList.Unlink | pkg/infrastructure/cache/memory.go:95-98 | The four pointer writes join the neighbours and clear the node. |
| LruCache.LruList.MoveToFront | pkg/infrastructure/cache/memory.go:102-105 | The node comes first, the others keep their order. |
| LruCache.LruList.Back | pkg/infrastructure/cache/memory.go:108-113 | The last node, or null exactly when the list is empty. |
| LruCache.MemoryCache.CopyOut | pkg/infrastructure/cache/memory.go:147-150 | A new array with the stored bytes. |
| LruCache.MemoryCache.Lookup | pkg/infrastructure/cache/memory.go:136-146 | Finds the live entry of the key and moves it to the front; drops an expired one. When an entry is expired is stated by LruReadBack.ReadBack. |
| LruCache.MemoryCache.Get | pkg/infrastructure/cache/memory.go:129-151 | Refines the sequence: a hit returns the stored value in an array that nothing else refers to and moves the key to the front, an expired item is dropped and misses, an absent key changes nothing. |
| LruCache.MemoryCache.Set | pkg/infrastructure/cache/memory.go:154-197 | Refines the sequence: an item with a copy of the bytes stands first, the rest keep their order, and only the least recently used are cut off to respect the cap. |
| LruCache.MemoryCache.Delete | pkg/infrastructure/cache/memory.go:200-210 | Removes exactly that key, keeping the order of the rest. |
| LruCache.MemoryCache.RemoveLocked | pkg/infrastructure/cache/memory.go:214-217 | Map and list lose exactly that entry together. |
| LruCache.MemoryCache.Evict | pkg/infrastructure/cache/memory.go:187-195 | The eviction loop keeps exactly the first maxEntries items. |
| LruCache.MemoryCache.EvictOne | pkg/infrastructure/cache/memory.go:189-193 | One eviction removes the last item. |
| LruCache.MemoryCache.Sweep | pkg/infrastructure/cache/memory.go:237-247 | Removes exactly the expired items, keeping the order of the rest, in whatever order the map is walked. |
| LruSpec.OpsKeepFit | pkg/infrastructure/cache/memory.go:129-247 | Every operation keeps the keys distinct and the size within the cap, and the item just set is never the one evicted. |
| LruSpec.StepKeepsPaired | pkg/infrastructure/cache/memory.go:129-247 | One operation on two caches with caps a <= b (or b unlimited) keeps the smaller one included in the larger, together with the bound that makes this inductive; hits of the smaller are hits of the larger. |
| LruSpec.Inclusion | pkg/infrastructure/cache/memory.go:129-247 | Over any operation sequence the smaller cache is an order-preserving subsequence of the larger, with equal values and expiries. |
| LruSpec.RaisingCapKeepsHits | pkg/infrastructure/cache/memory.go:129-151 | So raising the cap never turns a hit into a miss or changes its value. |
| LruReadBack.ReadBack | pkg/infrastructure/cache/memory.go:129-247 | On a clock that does not run backwards, a Get answers with the value last set under the key, exactly until its time to live is over: without a cap always, and with one as long as fewer other keys than the cap have been used since the key was last set or hit. |
| LruReadBack.NeverStale | pkg/infrastructure/cache/memory.go:136-151 | Whatever the cap and the clock, a hit is the value last set, within its time to live. |
| LruReadBack.DeletedIsMissed | pkg/infrastructure/cache/memory.go:200-210 | A key deleted since it was last set, or never set, is a miss. |
| LruReadBack.ExpiredIsDropped | pkg/infrastructure/cache/memory.go:140-143 | After a sweep, or a Get of the key, no item is left whose time to live is over. |
| TokenBucket.Limiter.New | pkg/security/ratelimit/tokenbucket.go:66-84 | Rejects a rate or burst that is not positive, the rate first; a zero idle time becomes the default. |
| TokenBucket.Limiter.Allow | pkg/security/ratelimit/tokenbucket.go:93-125 | Reaps, refills the bucket of the key, spends a token or answers the exact wait; other buckets change only by reaping. |
| TokenBucket.Limiter.Fetch | pkg/security/ratelimit/tokenbucket.go:99-114 | Finds or creates the bucket of the key and refills it, capped at the burst. |
| TokenBucket.Limiter.MaybeReap | pkg/security/ratelimit/tokenbucket.go:135-145 | Removes exactly the buckets last seen before now - idleTTL, and none when idleTTL is negative. |
| TokenBucket.ReapedIff | pkg/security/ratelimit/tokenbucket.go:135-145 | A bucket is forgotten exactly if it has been idle for longer than the idle time. |
| TokenBucket.AnswersAlone | pkg/security/ratelimit/tokenbucket.go:93-145 | When reaping is off or idleTTL * rate >= burst, each call is answered as by a never-reaped bucket that saw only the calls of that key: keys do not affect each other. |
| TokenBucket.ReapingInvisible | pkg/security/ratelimit/tokenbucket.go:127-145 | Under that condition the limiter answers every trace exactly as one that never reaps. |
| TokenBucket.ReapingVisible | pkg/security/ratelimit/tokenbucket.go:127-145 | Without it, a trace exists that a reaping limiter admits and a never-reaping one denies. |
| TokenBucket.ReapingInvisibleIff | pkg/security/ratelimit/tokenbucket.go:127-145 | So the condition is exact for the answers. |
| TokenBucket.WindowBound | pkg/security/ratelimit/tokenbucket.go:93-125 | When reaping is off or idleTTL * rate >= burst, any window of length d admits at most burst + rate * d calls per key, for every trace. |
| TokenBucket.WindowExceeded | pkg/security/ratelimit/tokenbucket.go:35-39 | Otherwise a trace of two bursts exists whose window admits 2 * burst calls, more than burst + rate * d. |
| TokenBucket.WindowBoundIff | pkg/security/ratelimit/tokenbucket.go:93-145 | So the bound holds for all traces, keys and windows exactly under that condition. |
| TokenBucket.AdmitsExactly | pkg/security/ratelimit/tokenbucket.go:93-125 | When reaping is off or idleTTL * rate >= burst, a call is admitted if and only if that keeps the bound burst + rate * d for every window of length d that ends with it: never more, and never less. |
| TokenBucket.RetryAfterExact | pkg/security/ratelimit/tokenbucket.go:121-124 | After a denial with exact wait r at time t, a later call of that key preceded only by calls before t + r is admitted exactly from t + r on. |
| TokenBucket.RetryAfterAnnounced | pkg/security/ratelimit/tokenbucket.go:121-124 | With the wait cut to whole nanoseconds, calls before it has passed are denied, and the first at least a nanosecond later is admitted. |
| Breaker.CircuitBreaker.New | pkg/resilience/circuitbreaker/circuitbreaker.go:108-125 | Rejects exactly the invalid configurations. |
| Breaker.CircuitBreaker.BeginDo | pkg/resilience/circuitbreaker/circuitbreaker.go:164-179 | Admission: rejected while open or when the episode has used up its probes, otherwise let through, as a probe if half-open. |
| Breaker.CircuitBreaker.EndDo | pkg/resilience/circuitbreaker/circuitbreaker.go:183-205 | Completion: the four outcomes by probe or not, failed or not. |
| Breaker.CircuitBreaker.Query | pkg/resilience/circuitbreaker/circuitbreaker.go:144-149 | Reports the state after the lazy move from open to half-open. |
| Breaker.CircuitBreaker.MaybeOpenToHalfOpen | pkg/resilience/circuitbreaker/circuitbreaker.go:210-220 | Moves from open to half-open exactly from openedAt + OpenTimeout on, with both probe counts reset. |
| Breaker.CircuitBreaker.TransitionToOpen | pkg/resilience/circuitbreaker/circuitbreaker.go:222-227 | Opens with a fresh timestamp and resets the probe counts, keeping the failure count. |
| Breaker.CircuitBreaker.TransitionToClosed | pkg/resilience/circuitbreaker/circuitbreaker.go:229-234 | Closes with all counts at zero. |
| Breaker.RunKeepsInv | pkg/resilience/circuitbreaker/circuitbreaker.go:127-206 | At every lock release, however calls overlap and however stale the completions: closed implies failures below the threshold, probes in flight equal probes admitted, at most HalfOpenMaxProbes, both zero outside half-open. |
| Breaker.ProbeEndsEpisode | pkg/resilience/circuitbreaker/circuitbreaker.go:185-199 | Any probe completion, even a stale one, ends the current half-open episode: success closes, failure opens with a fresh timestamp. |
| Breaker.RunRecords | pkg/resilience/circuitbreaker/circuitbreaker.go:127-234 | Under any overlap the state is what the history makes it: the failures are those since the last success; it is closed unless a probe failure, or a failure at the threshold, came after the last probe success, and then opened at that time; half-open once somebody came or asked after the timeout. |
| Breaker.AdmittedExactly | pkg/resilience/circuitbreaker/circuitbreaker.go:164-179 | Under any overlap: everyone is let through while closed; after the timeout exactly the first HalfOpenMaxProbes to come, as probes; nobody else. |
| Breaker.OrdinaryCompletion | pkg/resilience/circuitbreaker/circuitbreaker.go:193-204 | An ordinary call that completes late, in whatever state: success clears the count only; failure opens with a fresh timestamp exactly if it is at least the threshold-th since the last success. |
| Breaker.EpisodeBound | pkg/resilience/circuitbreaker/circuitbreaker.go:170-177 | Each half-open episode admits at most HalfOpenMaxProbes operations. |
| Breaker.StaysOpenIff | pkg/resilience/circuitbreaker/circuitbreaker.go:151-220 | Within the timeout of a trip the breaker stays open exactly as long as no probe success completes. |
| Breaker.RejectsWhileOpen | pkg/resilience/circuitbreaker/circuitbreaker.go:164-169 | So no operation is let through before the timeout unless such a late probe success came first. |
| Breaker.LateProbeClosesEarly | pkg/resilience/circuitbreaker/circuitbreaker.go:185-192 | A concrete run in which that happens: the documented rule that an open breaker rejects until the timeout fails under overlap. |
| Breaker.SequentialIsFold | pkg/resilience/circuitbreaker/circuitbreaker.go:142-234 | Without overlap the breaker is the documented machine: closed, with that count, exactly while the current run of failures is shorter than the threshold; otherwise opened when the last failure ended. |
| Breaker.RunsExactlyWhen | pkg/resilience/circuitbreaker/circuitbreaker.go:156-179 | Without overlap an operation runs exactly when fewer than threshold failures precede it in a row or the timeout has passed since the last of them. |
| Breaker.TripsAndRecovers | pkg/resilience/circuitbreaker/circuitbreaker.go:188-204 | Without overlap the breaker trips exactly at the threshold, and the first probe alone decides between closing and reopening. |
| Bulkhead.Semaphore.New | pkg/resilience/bulkhead/bulkhead.go:61-75 | Rejects exactly the invalid configurations. |
| Bulkhead.Semaphore.TryEnter | pkg/resilience/bulkhead/bulkhead.go:106-112 | Takes a slot if one is free, without blocking. |
| Bulkhead.Semaphore.AddWaiter | pkg/resilience/bulkhead/bulkhead.go:117-118 | The optimistic increment and the comparison of its result with MaxQueue. |
| Bulkhead.Semaphore.RollBackWaiter | pkg/resilience/bulkhead/bulkhead.go:119-120 | The roll-back of a refused caller. |
| Bulkhead.Semaphore.AcquireQueued | pkg/resilience/bulkhead/bulkhead.go:128-129 | A queued caller takes a slot when one is free. |
| Bulkhead.Semaphore.Release | pkg/resilience/bulkhead/bulkhead.go:130-131 | The first deferred call frees the slot. |
| Bulkhead.Semaphore.RemoveWaiter | pkg/resilience/bulkhead/bulkhead.go:122 | The deferred decrement, after the slot has been freed. |
| Bulkhead.Semaphore.InFlight | pkg/resilience/bulkhead/bulkhead.go:148-149 | Reports the number of running operations, at most MaxConcurrent. |
| Bulkhead.StepKeepsInv | pkg/resilience/bulkhead/bulkhead.go:98-146 | Every atomic step of any caller keeps: slots in use are the running operations and at most MaxConcurrent; the counter is the callers charged to the queue plus those yet to roll back; the charged are at most MaxQueue. |
| Bulkhead.RunKeepsInv | pkg/resilience/bulkhead/bulkhead.go:98-146 | So every interleaving keeps it. |
| Bulkhead.EntersIff | pkg/resilience/bulkhead/bulkhead.go:106-129 | In any interleaving a call gets a slot, on arrival and from the queue alike, exactly if fewer than MaxConcurrent operations are running. |
| Bulkhead.QuietIsEmpty | pkg/resilience/bulkhead/bulkhead.go:98-146 | When all calls have returned both counts are zero. |
| Bulkhead.SomeoneCanMove | pkg/resilience/bulkhead/bulkhead.go:98-146 | No deadlock: while a call has not returned, some call can take its next step without time limit or cancellation; freeing a slot never blocks. |
| Bulkhead.CallHistory | pkg/resilience/bulkhead/bulkhead.go:45-52 | A call takes at most five steps; its operation was started exactly once if it returns the result of the operation, never if it returns ErrFull or the context error. |
| Bulkhead.WhyEnded | pkg/resilience/bulkhead/bulkhead.go:114-146 | A call returns the context error exactly if it was cancelled while queued, and ErrFull exactly if it rolled back or its time limit passed, which happens only if one is set. |
| Bulkhead.RefusedIff | pkg/resilience/bulkhead/bulkhead.go:114-121 | A caller without a slot is refused exactly when charged and surplus callers together are at least MaxQueue. |
| Bulkhead.RefusedWithEmptyQueue | pkg/resilience/bulkhead/bulkhead.go:31-34 | A concrete run in which a caller is refused although nobody is waiting, because a queued caller stays charged while it runs. |
| Retry.PolicyRecord.Validate | pkg/resilience/retry/retry.go:73-97 | Rejects exactly the policies that cannot be repaired, unchanged; repairs the others in place. |
| Retry.NormalizedIsValid | pkg/resilience/retry/retry.go:68-72 | Repair makes an accepted policy valid, leaves exactly the valid ones as they are, and is idempotent. |
| Retry.NormalizedFills | pkg/resilience/retry/retry.go:83-96 | Negative delays become 100 ms and 30 s, an initial delay above a positive cap is cut to it, a missing predicate retries everything; the rest stays. |
| Retry.Retrier.New | pkg/resilience/retry/retry.go:108-113 | Rejects exactly what Validate rejects; the retrier runs under the repaired copy. |
| Retry.Backoff.NextDelay | pkg/resilience/retry/backoff.go:49-75 | Computes the documented delay for the drawn number, or whatever the platform makes of one too large for a duration; draws only when there is jitter and a delay. |
| Retry.Backoff.Base | pkg/resilience/retry/backoff.go:57-61 | The exponential, cut at the cap if there is one. |
| Retry.Backoff.Jitter | pkg/resilience/retry/backoff.go:63-69 | The symmetric jitter for the drawn number; nothing is drawn without jitter. |
| Retry.CappedDelayFits | pkg/resilience/retry/backoff.go:57-75 | With a cap of up to 2^62 nanoseconds every delay fits a duration. |
| Retry.SleepsAtMost | pkg/resilience/retry/backoff.go:57-75 | Fitting or not, the loop sleeps no longer than the delay. |
| Retry.DelayBand | pkg/resilience/retry/backoff.go:40-48 | Every delay lies within (1 - J) and (1 + J) of min(Initial * Mult^(i-1), MaxDelay), up to the cut to whole nanoseconds, and is not negative. |
| Retry.DelayFollowsDraw | pkg/resilience/retry/backoff.go:63-75 | Within the band the delay lies where the draw says, in proportion from the lower to the upper edge, cut to whole nanoseconds. |
| Retry.NominalRecurrence | pkg/resilience/retry/backoff.go:57-61 | Before jitter the first delay is the initial one, and each of the others is the one before times the multiplier, cut at the cap if there is one. |
| Retry.CapHoldsIff | pkg/resilience/retry/retry.go:37-38 | A delay is at most MaxDelay for every draw exactly when there is no jitter or the upper edge of the band is at most a nanosecond past the cap. |
| Retry.JitterPassesCap | pkg/resilience/retry/retry.go:37-38 | A concrete delay above MaxDelay. |
| Retry.NominalGrows | pkg/resilience/retry/backoff.go:57-61 | With a multiplier of at least 1, delays before jitter never shrink. |
| Retry.Retrier.Do | pkg/resilience/retry/retry.go:136-179 | Calls the operation with attempts 1, 2, ..., k; ends as Ended says; every wait is what the backoff yields for its attempt. |
| Retry.EndedUnique | pkg/resilience/retry/retry.go:144-178 | That determines attempts, waits and answer: it stops at the first success, the first error that is not retryable, the last attempt, or cancellation. |
| Retry.WhyStopped | pkg/resilience/retry/retry.go:150-178 | An attempt follows another only after a retryable failure; success answers success; a retryable failure is given back only after the last attempt; otherwise the context has ended. |
| Retry.StopsAtOnce | pkg/resilience/retry/retry.go:157-162 | A success, or a failure that is not retryable, at attempt i makes i the last attempt and decides the answer. |
| Retry.EndedWithinLimit | pkg/resilience/retry/retry.go:30-32 | At most MaxAttempts attempts, fewer waits, and success exactly when the last attempt succeeded. |
| Retry.TotalWaitCapped | pkg/resilience/retry/backoff.go:57-70 | The waits together are at most (1 + J) * n * MaxDelay for n waits. |
| Retry.TotalWaitBound | pkg/resilience/retry/backoff.go:57-70 | So a call waits at most (1 + J) * (MaxAttempts - 1) * MaxDelay. |
| Retry.TotalWaitGeometric | pkg/resilience/retry/backoff.go:57-70 | Capped or not, the waits together are at most (1 + J) * Initial * (1 + m + ... + m^(n-1)). |
| Retry.GeometricClosedForm | pkg/resilience/retry/backoff.go:57-58 | That sum times (m - 1) is m^n - 1. |

## Left out

- Draining with several dispatchers at once: only safety is proved of them; the drain is for one dispatcher under a live context, as it is promised.
- The error handler of the outbox.
- A NaN rate, multiplier or jitter factor.
- SQL `Save`: the insert and the duplicate lookup depend on the unique index of the database.
- Error texts: errors are distinguished by kind; the problems that `Validate` sorts by wording are kept as data in the order found.
- Module metadata other than the ID, and category and subcategory of a dependency: no decision of the solver reads them.
- Nil interfaces and typed nil pointers are one nil module.
- `Start`, `Stop`, `Close`, tickers and goroutines of the outbox and the cache: passes and sweeps are operations like the others.
- In breaker, bulkhead and retry: the error for a nil operation, and panics inside an operation. In breaker and bulkhead also the return for a context that is already cancelled, which precedes any access to shared state.
- Concurrent calls of one retrier: they share the random-number generator, which only changes which numbers are drawn.
- HTTP middleware, configuration, logging, authentication, authorisation, the in-memory event bus, password hashing: plumbing, foreign cryptography, or members that would only be easy.
