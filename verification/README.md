# Arbiter, verified models

Arbiter is a policy-enforcing proxy between agents and MCP servers. Most of what it promises is kept by
small state machines behind locks and by a few transformations of text and trees. This project models
them in Dafny and proves what they are for: properties of every run, every input or every reachable state.

| files | component |
|---|---|
| `SessionModel.dfy`, `SessionStore.dfy`, `SessionRuns.dfy`, `Admission.dfy` | task sessions, the in-memory store, its runs: conservation, status machine, cap, rate bound, batch against single use, and which calls are admitted |
| `DurableStore.dfy`, `DurableRuns.dfy`, `DurableRate.dfy`, `DurableCap.dfy`, `DurableAdmission.dfy` | the storage-backed store as a write-through cache with failing writes, lost replies, deferred closures and restarts: durability, agreement, and its rate limit and session cap over restarts |
| `Delegation.dfy`, `Registry.dfy`, `Lifecycle.dfy`, `LinkCycles.dfy` | the delegation graph, the agent registry, its runs, and when its links form a cycle |
| `Masking.dfy`, `Encodings.dfy`, `Base64.dfy`, `Scrub.dfy`, `ScrubLimits.dfy`, `ScrubJson.dfy`, `Spellings.dfy` | masking secrets in responses, in twelve spellings |
| `AdminLimiter.dfy` | the admin API's sliding-window limiter |
| `AuditSink.dfy` | the hash-chained audit log and its degraded state |
| `Policy.dfy`, `Evaluate.dfy`, `Verdicts.dfy`, `StableSort.dfy` | policies, their compilation, the evaluator, and what its decisions mean |
| `Mcp.dfy`, `Requests.dfy` | the MCP parser and printer, on JSON trees, and what they take for a request |
| `EndToEnd.dfy` | delegated scope across registry and evaluator |

Verify everything with `dafny verify dfyconfig.toml`.

How the code is modelled:

- A store, registry, limiter or sink is a class whose methods follow the code branch by branch. Their
  contracts tie the new state to a function of the old one, and the run-level theorems are about sequences
  of states related by those same functions.
- Beside those functions stand lemmas that say in fields what they compute, so that no result rests on a
  definition alone: `Admission`, `DurableAdmission`, `Verdicts`, `Requests`, `Spellings`, and the verification
  and refusal lemmas of `Registry`.
- Times are integers (nanoseconds), read from a clock that never goes back; each `Utc::now()` of an operation
  is a parameter of its own (`tExpiry`, `tRate`, ...), so an operation may see time pass between its checks.
- UUIDs are natural numbers and fresh ones are parameters. Counters (`u64`, `i32`) are unbounded.
- A clean-up reads the clock once for each session it visits.
- A storage write is `Committed`, `ReplyLost` (made, but reported as an error) or `Failed`; steps of
  different operations interleave wherever the code does not hold the lock.
- A record hash is a parameter, collision-free where a lemma says so. Regular expressions, case folding and
  the printed size of a JSON value are parameters too. JSON numbers are reals.
- Response bodies and secrets are byte strings.

Where the code and its documentation disagree, the model follows the code:

- `docs/sphinx/reference/configuration.md` calls the session rate window sliding; the code restarts a fixed
  window. `SessionRuns.RateBound` gives the resulting bound and `SessionRuns.TwoWindowsMeet` shows it is met.
- A batch that opens a rate window is charged without comparing its size to the limit.
  `SessionModel.BatchRefinesFold` says exactly when a batch then differs from single calls.
- `docs/sphinx/guides/audit.md` says the chain resumes across restarts; a new sink always begins at genesis
  (`AuditSink.RestartBeginsNewChain`).
- `sink.rs` describes `write_failures` as consecutive failures reset by each success; it takes three
  successes, and in between the count goes on (`AuditSink.ConsecutiveIffHealthyBefore`).
- `docs/sphinx/understanding/security-model.md` lists HTML entities as not scrubbed; the code scrubs them.
- The numeric escapes (JSON `\u00xx`, HTML entities) spell each byte as a code point, which is how a reader
  takes back the secret only if it is ASCII (`Encodings.EscapesReadBackIffAscii`).
- The cap on an agent's sessions is checked against the cache, and a restart refills the cache from rows that
  may lag behind it. `DurableCap.CapHoldsIff` says exactly when the cap holds over restarts, and
  `DurableCap.PendingClosureBreaksCap` and `DurableCap.EvictedRowBreaksCap` are runs in which it does not.
- The registry keeps the first-parent forest acyclic, not the links as a whole; `LinkCycles.LinksAcyclicIff`
  says exactly when those form no cycle.
- A reload forgets a session's credential list, and an empty list authorizes everything
  (`DurableStore.ReloadKeepsCredentialsIff`).
- In the parser the `Null` case for ids is never reached, since an id of `null` is read as no id.

## Model

| member | source | states |
|---|---|---|
| `SessionStore.CheckRateLimit` | crates/arbiter-session/src/model.rs:126-144 | the fixed window: no limit never rejects, an elapsed window restarts with one call, a full one rejects and changes nothing |
| `SessionStore.Store.Create` | crates/arbiter-session/src/store.rs:53-94 | inserts a fresh active session whose limit is at least a second, and nothing else |
| `SessionStore.CountActive` | crates/arbiter-session/src/store.rs:367-376 | counts exactly the agent's active sessions |
| `SessionStore.Store.CreateIfUnderCap` | crates/arbiter-session/src/store.rs:99-140 | succeeds exactly when the agent has fewer active sessions than the maximum; otherwise reports the count and changes nothing |
| `SessionStore.Store.UseSession` | crates/arbiter-session/src/store.rs:149-218 | whole new map and result, every refusal in order, at most one session changed |
| `SessionStore.Store.UseSessionBatch` | crates/arbiter-session/src/store.rs:226-319 | the same for an atomic batch: all checks before any charge |
| `SessionStore.Store.Close` | crates/arbiter-session/src/store.rs:322-335 | closes an open session once; unknown and closed ones are refused without change |
| `SessionStore.Store.CloseSessionsForAgent` | crates/arbiter-session/src/store.rs:379-394 | closes exactly the agent's active sessions and returns how many there were |
| `SessionStore.CloseAgentExactly` | crates/arbiter-session/src/store.rs:379-394 | afterwards the agent has no active session and no other agent's session changed |
| `SessionStore.Store.CleanupExpired` | crates/arbiter-session/src/store.rs:397-418 | keeps exactly the sessions that are neither expired, each at its own clock reading, nor closed, and returns how many went |
| `SessionModel.FoldClosedForm` | crates/arbiter-session/src/store.rs:149-218 | what folding single use over any list of tools accepts and leaves behind, in closed form |
| `SessionModel.BatchRefinesFold` | crates/arbiter-session/src/store.rs:226-319 | a batch accepts and changes exactly what the fold does if and only if it does not open a window with too many calls |
| `SessionModel.SmallBatchIsFold` | crates/arbiter-session/src/store.rs:226-319 | a batch no larger than the limit, with a window of positive length, equals the fold |
| `SessionModel.FreshWindowTakesAnyBatch` | crates/arbiter-session/src/store.rs:279-308 | a concrete batch that passes a limit the single calls would meet |
| `SessionModel.BatchWithinLimit` | crates/arbiter-session/src/store.rs:279-308 | an accepted batch leaves the window within its limit exactly unless it opened it with more calls |
| `SessionModel.RefusedBatchChargesNothing` | crates/arbiter-session/src/store.rs:226-319 | a refused batch changes no counter, at most Active to Expired |
| `SessionRuns.UseProgress` | crates/arbiter-session/src/store.rs:171-217 | one use moves status forward only, counts one call if accepted, and freezes counters outside Active |
| `SessionRuns.BatchProgress` | crates/arbiter-session/src/store.rs:248-308 | the same for a batch and its size |
| `SessionRuns.RunKeepsInv` | crates/arbiter-session/src/store.rs:40-418 | what every step of every run keeps |
| `SessionRuns.Conservation` | crates/arbiter-session/src/store.rs:171-217 | over every run `calls_made` equals the accepted calls and stays within the budget |
| `SessionRuns.StatusMachine` | crates/arbiter-session/src/store.rs:322-335 | between any two moments of a run status only moves Active to Expired or Closed and Expired to Closed, terms stay, counters are frozen once status left Active |
| `SessionRuns.SessionCap` | crates/arbiter-session/src/store.rs:99-140 | over every run that creates only under a fixed maximum, no agent has more active sessions |
| `SessionRuns.RateBound` | crates/arbiter-session/src/model.rs:126-144 | any half-open span of one window holds at most twice the larger of limit and largest batch, for any mix of uses |
| `SessionRuns.TwoWindowsMeet` | crates/arbiter-session/src/model.rs:126-144 | for every limit and window there is a run in which one window length holds twice the limit |
| `Admission.UseAdmittedIff` | crates/arbiter-session/src/store.rs:149-218 | a call is admitted if and only if it names the session's agent or none, the session is active, in time and below budget, the tool is listed and the rate lets it through; it then charges one call and nothing else |
| `Admission.UseRefusedBy` | crates/arbiter-session/src/store.rs:149-218 | every refusal names the first term not met, with its numbers, and only a late call changes the session |
| `Admission.BatchAdmittedIff` | crates/arbiter-session/src/store.rs:226-319 | the same for a batch of any size, as a whole |
| `Admission.BatchRefusedBy` | crates/arbiter-session/src/store.rs:226-319 | the first term a batch does not meet, down to the first unlisted tool |
| `Admission.NewSessionAdmits` | crates/arbiter-session/src/store.rs:53-94 | a new session has its request's terms and admits exactly the calls they allow |
| `Admission.CreatedLimit` | crates/arbiter-session/src/store.rs:53-60 | `create` raises a limit below a second to a second and keeps any other |
| `Admission.ClosedOnce` | crates/arbiter-session/src/store.rs:322-335 | closing turns an open session to Closed and a second time is refused |
| `Admission.CleanupKeepsIff` | crates/arbiter-session/src/store.rs:397-412 | a session survives clean-up if and only if it is active and in time, and then unchanged |
| `Admission.EveryCallWasAdmitted` | crates/arbiter-session/src/store.rs:149-319 | over every run, every accepted call was asked for by the session's agent, for listed tools, while the session was active and in time |
| `DurableStore.ConversionRoundTrip` | crates/arbiter-session/src/storage_store.rs:470-558 | both round trips between session and row, with exactly what is lost |
| `DurableStore.ReloadKeepsCredentialsIff` | crates/arbiter-session/src/storage_store.rs:494-524 | a reload widens credential authorization exactly when the session was restricted |
| `DurableStore.Store.constructor` | crates/arbiter-session/src/storage_store.rs:39-63 | the cache after a start is exactly the rows read back |
| `DurableStore.Store.Create` | crates/arbiter-session/src/storage_store.rs:66-103 | the row (if the write lands) and the cached session, whatever the write reports |
| `DurableStore.Store.CreateIfUnderCap` | crates/arbiter-session/src/storage_store.rs:106-153 | under the cap, row and cache gain the session; at the cap nothing changes |
| `DurableStore.Store.UpdateSession` | crates/arbiter-storage/src/sqlite.rs:292-296 | an update writes an existing row if it lands and succeeds only if reported |
| `DurableStore.Store.UseSession` | crates/arbiter-session/src/storage_store.rs:156-238 | cache, rows and result for every write outcome: an unreported write keeps the charge and returns an error |
| `DurableStore.Store.UseSessionBatch` | crates/arbiter-session/src/storage_store.rs:246-352 | the same for a batch |
| `DurableStore.Store.Close` | crates/arbiter-session/src/storage_store.rs:355-377 | closes in the cache and writes the row, ignoring the outcome |
| `DurableStore.Store.MarkClosed` | crates/arbiter-session/src/storage_store.rs:408-427 | the part under the lock: closes the agent's active sessions in the cache and gathers exactly their rows |
| `DurableStore.Store.CleanupExpired` | crates/arbiter-session/src/storage_store.rs:443-465 | evicts exactly the sessions expired at their own clock reading from the cache and the expired rows from storage |
| `DurableRuns.Projection` | crates/arbiter-session/src/storage_store.rs:30-465 | a step of the whole store acts on each session as a step on that session's own cache entry, row and pending writes |
| `DurableRuns.RunKeepsInv` | crates/arbiter-session/src/storage_store.rs:30-465 | what every step keeps under arbitrary write failures, lost replies and restarts |
| `DurableRuns.CrashDurability` | crates/arbiter-session/src/storage_store.rs:192-238 | in every run acknowledged calls ≤ stored calls ≤ cached calls ≤ budget, and a row is never ahead of the cache |
| `DurableRuns.BudgetHoldsForever` | crates/arbiter-session/src/storage_store.rs:192-238 | over all restarts together, acknowledged calls never exceed the budget the session was created with |
| `DurableRuns.RestartGivesNothingBack` | crates/arbiter-session/src/storage_store.rs:52-63 | after a restart the remaining budget excludes every acknowledged call |
| `DurableRuns.DeferredCloseIsNeverStale` | crates/arbiter-session/src/storage_store.rs:408-440 | in every interleaving a closure written after the lock is released only moves its row forward and equals the cached session |
| `DurableRuns.CacheAgreesWithStorage` | crates/arbiter-session/src/storage_store.rs:95-102 | with reliable writes and whole-second limits, every cached session within its limit has a row equal to its saved form, unless its closure is under way or a restart clamped its limit |
| `DurableRuns.DeletionIsSafeIff` | crates/arbiter-storage/src/sqlite.rs:298-310 | with times rounded to milliseconds and compared by whole seconds, storage never deletes the row of a session within its limit if and only if saving cut at most half a millisecond off the limit |
| `DurableRate.RunKeepsRated` | crates/arbiter-session/src/storage_store.rs:192-352 | in every run the cached session, its row and its pending closure all account for every acknowledged call in the rate window |
| `DurableRate.DurableRateBound` | crates/arbiter-session/src/storage_store.rs:192-352 | over all write failures and restarts, any half-open span of one window holds at most twice the larger of limit and largest batch in acknowledged calls |
| `DurableCap.CapHoldsIff` | crates/arbiter-session/src/storage_store.rs:106-153 | over every run that creates only under a fixed maximum, no agent has more active sessions if and only if every restart finds no more of its rows active |
| `DurableCap.StaleOnlyIf` | crates/arbiter-session/src/storage_store.rs:408-465 | when writes land, a row is active beyond the cache only while a closure is under way or after an eviction that left the row |
| `DurableCap.OrderlyRestartsKeepCap` | crates/arbiter-session/src/storage_store.rs:52-63 | when writes land, the cap holds if the process restarts only with no closure under way and every active row cached |
| `DurableCap.PendingClosureBreaksCap` | crates/arbiter-session/src/storage_store.rs:408-440 | a run with committed writes only in which a restart brings back a session whose closure was still to be written |
| `DurableCap.EvictedRowBreaksCap` | crates/arbiter-session/src/storage_store.rs:443-465 | the same for a session evicted from the cache before storage deletes its row |
| `DurableAdmission.SavedFields` | crates/arbiter-session/src/storage_store.rs:470-488 | what each field of a row is, with the limit cut to whole seconds toward zero |
| `DurableAdmission.ReloadedLimit` | crates/arbiter-session/src/storage_store.rs:492-524 | a reloaded session runs for its saved seconds, a day at most |
| `DurableAdmission.EvictionIff` | crates/arbiter-session/src/storage_store.rs:443-454 | a cached session survives clean-up if and only if it is not marked expired and in time |
| `DurableAdmission.DeletionIff` | crates/arbiter-storage/src/sqlite.rs:298-310 | a row survives deletion if and only if it is not marked expired and, when active, its last second is not over |
| `DurableAdmission.RowsComeFromCreation` | crates/arbiter-storage/src/sqlite.rs:292-296 | over every run a row appears only when its session is created |
| `DurableAdmission.AcknowledgedIsStored` | crates/arbiter-session/src/storage_store.rs:192-238 | over every run an acknowledged call was reported written, and its row is the cached session with the call charged |
| `DurableAdmission.LogGrows` | crates/arbiter-session/src/storage_store.rs:192-352 | a call is acknowledged if and only if it is let through and its existing row took a reported write |
| `DurableAdmission.EveryAckWasAdmitted` | crates/arbiter-session/src/storage_store.rs:156-352 | over all write failures and restarts, every acknowledged call was asked for by the agent the session was created for, for its tools and before its deadline |
| `Delegation.GrowthKeepsAcyclic` | crates/arbiter-identity/src/registry.rs:261-296 | adding any link that passes the cycle check keeps the first-parent forest acyclic |
| `Delegation.ChainUnique` | crates/arbiter-identity/src/registry.rs:325-354 | an agent has at most one root-to-agent chain |
| `Delegation.ChainDistinct` | crates/arbiter-identity/src/registry.rs:325-354 | in an acyclic forest no agent appears twice on a chain |
| `Delegation.UprightIffPaths` | crates/arbiter-identity/src/registry.rs:356-388 | "no active agent linked below an inactive one" is the same as "none reachable by any path" |
| `Registry.InMemoryRegistry.RegisterAgent` | crates/arbiter-identity/src/registry.rs:107-129 | adds exactly one active agent |
| `Registry.InMemoryRegistry.UpdateTrustLevel` | crates/arbiter-identity/src/registry.rs:147-162 | changes one active agent's level; absent and inactive agents are refused |
| `Registry.InMemoryRegistry.DeactivateAgent` | crates/arbiter-identity/src/registry.rs:164-175 | switches off one active agent; absent and inactive agents are refused |
| `Registry.InMemoryRegistry.TooDeep` | crates/arbiter-identity/src/registry.rs:226-243 | the depth walk answers whether the source has ten ancestors |
| `Registry.InMemoryRegistry.LeadsTo` | crates/arbiter-identity/src/registry.rs:261-284 | the cycle walk answers exactly whether the target is an ancestor of the source |
| `Registry.InMemoryRegistry.CreateDelegation` | crates/arbiter-identity/src/registry.rs:187-297 | refuses with the first failing check, in terms of ancestry, or appends exactly one link |
| `Registry.InMemoryRegistry.GetChainForAgent` | crates/arbiter-identity/src/registry.rs:325-354 | for any links, exactly the walk up to the first agent without a parent or met before; on an acyclic forest exactly the chain from the root to the agent |
| `Registry.WalkUnique` | crates/arbiter-identity/src/registry.rs:325-354 | for any links there is one such walk only |
| `Registry.WalkIsChain` | crates/arbiter-identity/src/registry.rs:325-354 | on an acyclic forest the walk never takes its cycle branch and is the chain |
| `Registry.InMemoryRegistry.VerifyChain` | crates/arbiter-identity/src/registry.rs:299-323 | for any links, succeeds if and only if no walked link has passed its expiry and no delegator is inactive; else names the first expired link, else the first inactive delegator |
| `Registry.InMemoryRegistry.CheckChain` | crates/arbiter-identity/src/registry.rs:302-322 | the two passes over a given chain |
| `Registry.VerdictVerifies` | crates/arbiter-identity/src/model.rs:52-57 | for every chain the answer is the one told by the links' expiry times and the delegators' flags |
| `Registry.DelegationAcceptedIff` | crates/arbiter-identity/src/registry.rs:187-297 | a delegation is accepted if and only if its agents differ, exist and share an owner, the source is active with at most nine links above it, the scope is non-empty and held, and the target is no ancestor |
| `Registry.DelegationRefusedBy` | crates/arbiter-identity/src/registry.rs:187-297 | a refusal names the first of these that fails, with its data |
| `Registry.SourceChainIsShort` | crates/arbiter-identity/src/registry.rs:226-243 | when a link is made, its source's chain has fewer than ten links |
| `Registry.InMemoryRegistry.CascadeDeactivate` | crates/arbiter-identity/src/registry.rs:356-388 | switches off and returns, without duplicates, exactly the agents reached along paths of active agents; nothing else changes |
| `Lifecycle.RunKeepsInv` | crates/arbiter-identity/src/registry.rs:106-388 | over every run links are sound, the forest is acyclic and no active agent hangs below an inactive one |
| `Lifecycle.NoActiveBelowInactive` | crates/arbiter-identity/src/registry.rs:199-206 | in every reachable state no delegation path leads from an inactive agent to an active one |
| `Lifecycle.CascadeCoversReachable` | crates/arbiter-lifecycle/src/api.rs:446-475 | in every reachable state a cascade takes down everything reachable along any links |
| `Lifecycle.VerifyNeverMeetsInactive` | crates/arbiter-identity/src/registry.rs:299-323 | in every reachable state verifying an active agent can only fail on an expired link |
| `Lifecycle.VerifySucceedsIff` | crates/arbiter-identity/src/registry.rs:299-323 | in every reachable state verifying an active agent succeeds if and only if no link of its chain has passed its expiry |
| `Lifecycle.ChainInEveryState` | crates/arbiter-identity/src/registry.rs:325-354 | in every reachable state a chain starts at a root and repeats no agent |
| `Lifecycle.ChainOwners` | crates/arbiter-identity/src/registry.rs:217-258 | all agents on a chain share one owner and each link hands on capabilities its source holds |
| `Lifecycle.LoneDeactivationIff` | crates/arbiter-identity/src/registry.rs:164-175 | deactivation without a cascade keeps that invariant exactly when nothing active is linked below |
| `Lifecycle.LoneDeactivationBreaks` | crates/arbiter-identity/src/registry.rs:164-175 | a run of two agents and one accepted link after which a lone deactivation breaks it |
| `LinkCycles.LinkClosesCycleIff` | crates/arbiter-identity/src/registry.rs:261-296 | for any acyclic links, one more keeps them acyclic if and only if its target does not already reach its source |
| `LinkCycles.LinksAcyclicIff` | crates/arbiter-identity/src/registry.rs:261-296 | in every reachable state the links form no cycle if and only if no delegation was accepted whose target already reached its source along any links |
| `LinkCycles.LinksMayFormCycle` | crates/arbiter-identity/src/registry.rs:261-284 | three accepted links that form a cycle outside the first-parent forest |
| `Masking.ReplaceMasks` | crates/arbiter-credential/src/inject.rs:150-155 | replacing splits any text into gaps around the leftmost non-overlapping matches |
| `Masking.MasksOnlyReplace` | crates/arbiter-credential/src/inject.rs:150-155 | and any such split gives the same result, so that is all replacing means |
| `Masking.ReplaceCreatesNone` | crates/arbiter-credential/src/inject.rs:150-231 | no replacement creates an occurrence of a text that cannot overlap the mask, and replacing that text leaves none |
| `Masking.PlainTextsDoNotClash` | crates/arbiter-credential/src/inject.rs:25-26 | a text without brackets that is no part of CREDENTIAL cannot overlap a mask |
| `Encodings.UrlEncode` | crates/arbiter-credential/src/inject.rs:244-257 | the loop spells each byte as section 2.1 of RFC 3986 does, upper case |
| `Encodings.UrlEncodeLower` | crates/arbiter-credential/src/inject.rs:262-275 | the same with lower-case digits |
| `Encodings.PercentRoundTrip` | crates/arbiter-credential/src/inject.rs:243-275 | percent-decoding either spelling gives back any bytes |
| `Encodings.HexRoundTrip` | crates/arbiter-credential/src/inject.rs:177-188 | hexadecimal decoding of either case gives back any bytes |
| `Encodings.JsonRoundTrip` | crates/arbiter-credential/src/inject.rs:168-176 | a JSON string reader gives back any bytes from their escaped form |
| `Encodings.EscapesReadBackIffAscii` | crates/arbiter-credential/src/inject.rs:233-282 | JSON and HTML readers give back the bytes from their numeric escapes if and only if they are ASCII |
| `Spellings.PercentIsShaped` | crates/arbiter-credential/src/inject.rs:244-275 | the percent encoders leave exactly letters, digits and `-_.~` alone and escape every other byte with digits of one case |
| `Spellings.PercentUnique` | crates/arbiter-credential/src/inject.rs:244-275 | the output is the only text of that shape that percent-decodes to the input |
| `Spellings.HexSpelled` | crates/arbiter-credential/src/inject.rs:177-188 | both hexadecimal forms digit by digit, each in its own case |
| `Spellings.HexUnique` | crates/arbiter-credential/src/inject.rs:177-188 | the output is the only text of digits of that case that reads back as the input |
| `Spellings.UnicodeSpelled` | crates/arbiter-credential/src/inject.rs:277-282 | the unicode form byte by byte |
| `Spellings.HtmlHexSpelled` | crates/arbiter-credential/src/inject.rs:238-241 | the hexadecimal HTML form byte by byte |
| `Spellings.HtmlDecimalSpelled` | crates/arbiter-credential/src/inject.rs:233-236 | the decimal HTML form of a byte: its number without leading zeros |
| `Spellings.JsonSpelled` | crates/arbiter-credential/src/inject.rs:168-176 | which bytes JSON leaves alone, which get an escape of two, and the digits of the others |
| `Spellings.AlphabetTable` | crates/arbiter-credential/src/inject.rs:335-348 | both base64 alphabets letter by letter |
| `Base64.EncodeChunk` | crates/arbiter-credential/src/inject.rs:351-368 | one chunk through a 24-bit number is its bits in sixes, padded |
| `Base64.Base64EncodeValue` | crates/arbiter-credential/src/inject.rs:346-370 | the shifting loop over triples regroups the bits in sixes, with the alphabet and padding of section 4 of RFC 4648 |
| `Base64.Base64UrlEncodeValue` | crates/arbiter-credential/src/inject.rs:335-344 | replacing and trimming gives the unpadded alphabet of section 5 of RFC 4648 |
| `Base64.Base64RoundTrip` | crates/arbiter-credential/src/inject.rs:335-370 | decoding either form gives back any bytes |
| `Scrub.FormsAreSpellings` | crates/arbiter-credential/src/inject.rs:150-231 | despite the skipped repeats, the masked forms are exactly the twelve spellings |
| `Scrub.MaskForm` | crates/arbiter-credential/src/inject.rs:172-175 | testing for an occurrence before replacing makes no difference |
| `Scrub.ScrubPlain` | crates/arbiter-credential/src/inject.rs:151-176 | masks the plain, percent and JSON forms in order |
| `Scrub.ScrubRadix` | crates/arbiter-credential/src/inject.rs:177-203 | masks the hexadecimal and base64 forms in order |
| `Scrub.ScrubEscapes` | crates/arbiter-credential/src/inject.rs:204-230 | masks the unicode, double percent and HTML forms in order |
| `Scrub.ScrubSingleValue` | crates/arbiter-credential/src/inject.rs:150-231 | the twelve guarded replacements mask the forms of a secret in order |
| `Scrub.LongestFirstOrder` | crates/arbiter-credential/src/inject.rs:101-105 | the secrets and no others, none before a longer one |
| `Scrub.ScrubResponse` | crates/arbiter-credential/src/inject.rs:100-125 | masks all forms of all non-empty secrets, longest secret first |
| `Scrub.NoSpellingSurvives` | crates/arbiter-credential/src/inject.rs:100-231 | for every body, list and secret, no spelling that cannot overlap a mask is left, whatever is masked before and after |
| `ScrubLimits.NumericSpellingsNeverSurvive` | crates/arbiter-credential/src/inject.rs:156-231 | for every secret without condition: lower-case hexadecimal, unicode and HTML spellings, and single and double percent spellings that differ from the secret, are never left |
| `ScrubLimits.HiddenIffNoClash` | crates/arbiter-credential/src/inject.rs:100-231 | scrubbing hides a secret in every response, next to every other secret, if and only if the secret cannot overlap a mask |
| `ScrubLimits.ClashingSecretSurvives` | crates/arbiter-credential/src/inject.rs:100-231 | for every secret that can, a body and a second secret that leave it in the result |
| `ScrubLimits.SpellingHiddenIff` | crates/arbiter-credential/src/inject.rs:100-231 | a spelling without brackets is hidden in every response if and only if it is no part of CREDENTIAL |
| `ScrubLimits.BracketsInPlainOrJson` | crates/arbiter-credential/src/inject.rs:150-231 | only the plain and the JSON spelling can have brackets |
| `ScrubJson.JsonHiddenIff` | crates/arbiter-credential/src/inject.rs:168-176 | a JSON spelling that differs from the secret is hidden in every response if and only if it cannot overlap a mask or holds a base64 spelling of the secret |
| `ScrubJson.ClashingJsonSurvives` | crates/arbiter-credential/src/inject.rs:168-176 | for every other JSON spelling, a body and a second secret that leave it in the result |
| `Spellings.ReadableTextsNeverSurvive` | crates/arbiter-credential/src/inject.rs:100-231 | whatever the secret, no response holds a text of percent shape that decodes to it (other than itself), nor one of twice that shape, nor lower-case digits that decode to it |
| `Spellings.UpperHexNeverSurvives` | crates/arbiter-credential/src/inject.rs:183-188 | nor upper-case digits that decode to it, unless they are part of CREDENTIAL |
| `Spellings.PlainInOrder` | crates/arbiter-credential/src/inject.rs:151-176 | the first four forms are masked in this order |
| `Spellings.RadixInOrder` | crates/arbiter-credential/src/inject.rs:177-203 | the next four |
| `Spellings.EscapesInOrder` | crates/arbiter-credential/src/inject.rs:204-230 | the last four |
| `Spellings.GroupsInOrder` | crates/arbiter-credential/src/inject.rs:150-231 | and the groups one after the other |
| `ScrubLimits.CleanBodyUntouched` | crates/arbiter-credential/src/inject.rs:100-125 | a body without any spelling of any secret is returned unchanged |
| `AdminLimiter.AdminRateLimiter.CheckRateLimit` | crates/arbiter-lifecycle/src/state.rs:43-63 | evicts, answers and records for one client; other clients' deques are untouched |
| `AdminLimiter.DequeIsRecentHistory` | crates/arbiter-lifecycle/src/state.rs:43-63 | over every run the deque after eviction is exactly the accepted requests of the whole history no older than the window |
| `AdminLimiter.AnswersFromHistory` | crates/arbiter-lifecycle/src/state.rs:43-63 | every answer is the one computed from the whole history |
| `AdminLimiter.SpanBound` | crates/arbiter-lifecycle/src/state.rs:43-63 | any closed span of one window holds at most the maximum of acceptances |
| `AdminLimiter.RejectionMeansFull` | crates/arbiter-lifecycle/src/state.rs:43-63 | a rejection means exactly the maximum already lies in the last window |
| `AuditSink.Sink.Write` | crates/arbiter-audit/src/sink.rs:153-247 | the whole new state for a line that is saved, in the file but unsynced, or lost: number, hash, line, counters, statistics; succeeds exactly when saved |
| `AuditSink.Sink.IsDegraded` | crates/arbiter-audit/src/sink.rs:127-132 | reports the degraded state |
| `AuditSink.FileIsChain` | crates/arbiter-audit/src/sink.rs:153-221 | the file is the chain of all records with the lost ones left out; the statistics are the entries reported as saved |
| `AuditSink.LinesChain` | crates/arbiter-audit/src/sink.rs:153-212 | numbers of neighbouring lines increase, their gap is the number of lines lost between, and without a gap they link by hash |
| `AuditSink.UnbrokenRunVerifies` | crates/arbiter-audit/src/sink.rs:153-212 | a run that loses no line, whatever it reports, leaves a log that a top-to-bottom verifier accepts, holding exactly its entries |
| `AuditSink.LastHashFixesLog` | crates/arbiter-audit/src/sink.rs:153-212 | under a collision-free hash two verifying logs with the same last hash are identical |
| `AuditSink.FirstLineFromGenesis` | crates/arbiter-audit/src/sink.rs:89-103 | a line numbered 1 is linked to the word genesis |
| `AuditSink.FileIsPlain` | crates/arbiter-audit/src/sink.rs:153-221 | without the hash chain the file is the plain entries with the lost ones left out |
| `AuditSink.NoFileNoFailure` | crates/arbiter-audit/src/sink.rs:153-221 | without a file every entry is counted and nothing fails |
| `AuditSink.RestartBeginsNewChain` | crates/arbiter-audit/src/sink.rs:89-103 | the logs of two sinks in one file verify together exactly when one is empty |
| `AuditSink.Hysteresis` | crates/arbiter-audit/src/sink.rs:125-142 | degraded exactly when one of the last three writes (or of all, if fewer) failed; the total counts all failures |
| `AuditSink.ConsecutiveIffHealthyBefore` | crates/arbiter-audit/src/sink.rs:134-137 | the consecutive count is the present run of failures exactly when the sink was healthy before it |
| `AuditSink.SuccessDoesNotReset` | crates/arbiter-audit/src/sink.rs:72-73 | failure, success, failure counts two |
| `Policy.TraverseDotPath` | crates/arbiter-policy/src/eval.rs:417-426 | the walk is descending along the pieces between the dots |
| `Policy.ExplainMismatch` | crates/arbiter-policy/src/eval.rs:219-237 | there is a reason exactly when some criterion fails |
| `Policy.Compile` | crates/arbiter-policy/src/model.rs:199-308 | succeeds exactly on loadable configurations, with every pattern compiled; an error names the first fault of the first check that fails, with its pattern and reason |
| `Policy.CompilationKeepsMeaning` | crates/arbiter-policy/src/model.rs:199-308 | a compiled policy matches the same requests with the same reasons and specificity |
| `Evaluate.EvaluateExplained` | crates/arbiter-policy/src/eval.rs:106-216 | decides as the specification says, with one faithful trace entry per policy in order |
| `Evaluate.Choose` | crates/arbiter-policy/src/eval.rs:145-213 | sorting, the scope walk and taking the first match meet the specification |
| `Verdicts.SplitSpells` | crates/arbiter-policy/src/eval.rs:421-422 | the pieces of a path are free of dots and spell it when joined |
| `Verdicts.SpellingIsSplit` | crates/arbiter-policy/src/eval.rs:421-422 | and no other dot-free pieces do |
| `Verdicts.DescendSteps` | crates/arbiter-policy/src/eval.rs:417-426 | no pieces lead to the value itself, and further ones lead on exactly from the object's field of the first name |
| `Verdicts.MatchesIff` | crates/arbiter-policy/src/eval.rs:219-505 | a policy matches if and only if agent id, trust level, capabilities, principal, intent, tool, resource and every constrained argument fit |
| `Verdicts.WinnerDecides` | crates/arbiter-policy/src/eval.rs:176-202 | in scope, the winning policy's effect and disposition fix the kind of decision, its policy id and its reason |
| `Verdicts.AllowedMeans` | crates/arbiter-policy/src/eval.rs:106-216 | an allowed request is within every narrowing and fits a listed Allow policy that no fitting policy outranks |
| `Verdicts.DeniedIff` | crates/arbiter-policy/src/eval.rs:106-216 | a request is denied if and only if it is out of scope, fits no policy, or a blocking deny wins |
| `Verdicts.DeniedReasons` | crates/arbiter-policy/src/eval.rs:166-212 | what a denial says that no policy decided |
| `Verdicts.SkipReasons` | crates/arbiter-policy/src/eval.rs:219-237 | the reason for skipping a policy names the first criterion that does not fit |
| `Verdicts.TraceMeans` | crates/arbiter-policy/src/eval.rs:122-143 | every field of a trace entry |
| `Verdicts.SpecificityBase` | crates/arbiter-policy/src/model.rs:157-184 | no criteria score nothing and a priority overrides |
| `Verdicts.SpecificitySteps` | crates/arbiter-policy/src/model.rs:157-184 | what each added criterion adds to the score of any policy |
| `Verdicts.SpecificityIgnores` | crates/arbiter-policy/src/model.rs:157-184 | nothing else counts |
| `Verdicts.LoadableIff` | crates/arbiter-policy/src/model.rs:199-287 | which configurations load |
| `Verdicts.PatternErrorMeans` | crates/arbiter-policy/src/model.rs:226-262 | which pattern an error names |
| `StableSort.SortIsStable` | crates/arbiter-policy/src/eval.rs:145-145 | descending keys, equal keys in their old order |
| `Evaluate.DecisionUnique` | crates/arbiter-policy/src/eval.rs:106-216 | the specification (earliest among the most specific matches) leaves no choice |
| `Evaluate.DefaultDenyIffNoneMatch` | crates/arbiter-policy/src/eval.rs:203-212 | in scope, default deny occurs exactly when no policy matches |
| `Evaluate.IrrelevantPolicy` | crates/arbiter-policy/src/eval.rs:106-216 | inserting a non-matching or strictly less specific policy anywhere changes no decision |
| `Evaluate.CompilationKeepsDecisions` | crates/arbiter-policy/src/model.rs:199-308 | compiling a configuration changes no decision |
| `Mcp.ExtractFields` | crates/arbiter-mcp/src/parser.rs:198-245 | tool, arguments and URI are taken only from the methods that carry them and only when they pass their checks |
| `Mcp.TryParseSingle` | crates/arbiter-mcp/src/parser.rs:163-253 | the request a JSON value stands for, or none |
| `Mcp.ParseBatch` | crates/arbiter-mcp/src/parser.rs:70-95 | the requests of a batch in order; none if an item only looks like a request |
| `Mcp.ParseMcpBody` | crates/arbiter-mcp/src/parser.rs:43-121 | what a body is parsed to, on its JSON tree |
| `Requests.SingleParsesIff` | crates/arbiter-mcp/src/parser.rs:125-253 | a JSON value parses if and only if it is a request by version, id and method, and then to exactly the tool, arguments and URI it carries and that pass their checks |
| `Requests.BatchParsesIff` | crates/arbiter-mcp/src/parser.rs:57-99 | a batch is a context if and only if it has at most 100 items, some item is a request and none that names a version or method fails to be one; the context is all its requests, in order |
| `Requests.BodyParsesIff` | crates/arbiter-mcp/src/parser.rs:100-121 | any other body is a context if and only if it is one request in an object |
| `Requests.PrintedFields` | crates/arbiter-mcp/src/context.rs:41-66 | the fields of a printed request, and no others |
| `Requests.CanonicalShape` | crates/arbiter-mcp/src/context.rs:73-81 | one request as an object, any other number as an array |
| `Mcp.ToJsonRpc` | crates/arbiter-mcp/src/context.rs:41-66 | the successive inserts build the printed request |
| `Mcp.PrintParse` | crates/arbiter-mcp/src/context.rs:41-66 | parsing a printed well-formed request gives it back |
| `Mcp.CanonicalBodyParses` | crates/arbiter-mcp/src/context.rs:73-81 | the canonical body of a well-formed context parses to that context |
| `Mcp.ParsePrintParse` | crates/arbiter-mcp/src/parser.rs:43-121 | whatever body a context came from, its canonical body parses to the same context |
| `Mcp.ContextsAreCanonical` | crates/arbiter-mcp/src/parser.rs:43-121 | the contexts ever returned are exactly the well-formed ones of 1 to 100 requests |
| `EndToEnd.DelegatedScope` | crates/arbiter-policy/src/eval.rs:152-174 | in every reachable registry state, any decision but a denial means the tool is in every link's scope and a capability of every delegator, all of one owner |

## Left out

- HTTP servers, the CLI, proxy forwarding, configuration files, metrics, OAuth and token signing: input, output and foreign cryptography.
- `inject_credentials`, `replace_refs` and `find_refs`: not modelled; scrubbing is stated for every list of secrets, however it was collected.
- `scrub_response_plain`: the same loop over plain strings.
- JSON text, SQL text and row parsing: the parser starts from JSON trees, and storage is a map of rows; the floating-point arithmetic in which SQLite rounds a time is exact here.
- Integer widths: counters do not overflow, and a rate window does not exceed the clock's range.
- `create_delegation` and `cascade_deactivate` are single steps, although the code takes its locks one after the other.
- Durability of a plain `close`: the code ignores a failed write there, so only acknowledged calls are promised to survive.
- A bound on the length of every chain: the code checks only the walk above the source when a link is made.
- The storage-backed registry and the dispatch enums repeat the same walks.
- AuditSink.Sink.Write: a line cut short is not modelled, and neither is the size limit of the file.
- AdminLimiter.AdminRateLimiter.CheckRateLimit: the code reads the clock before it takes the lock; the run lemmas assume requests in clock order.
- Base64.Base64EncodeValue: the alphabet is given by its four ranges instead of as a table.
- Encodings.EscapesReadBackIffAscii: the HTML reader takes every number as the code point it names, without HTML's exceptions for 0 and 128 to 159.
- `authorized_tools`, policy diagnostics, behaviour classification and response classification: settled by reading one branch each.
