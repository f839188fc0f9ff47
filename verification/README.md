# Praeco gateway and relay: a verified model

Praeco is a reverse-proxy gateway with a companion relay. Requests pass admission control
(connection permits, token buckets, payload limits), a path canonicaliser, role rules and a load
balancer with a circuit breaker per upstream; logins by QR code go through an in-memory session
store; the relay routes TLS connections by SNI to tunnels that clients register. This project models
those parts in Dafny and proves what they promise, for every input, every run and, where tasks share
state, every interleaving.

How the model is laid out:

- A shared structure touched by concurrent tasks (`ConnectionTracker`, `SessionProtocol`,
  `RelayRegistry`, `BucketRace`) is a state machine. One step is one atomic operation or one critical section on a
  map entry; a run is any sequence of steps of any number of tasks. The theorems hold after every run,
  and a lemma ending in `Alone` shows that the steps of one call, undisturbed, make up that call.
- An object updated in place is a class whose methods are proved against functions on values, and the
  laws are lemmas about those functions over whole runs of calls. Loops stay loops.
- The clock, random material, lock contention (`try_lock` failing), health and load readings, the
  outcome of building a TLS configuration or a service stack, and the fragmentation of byte streams
  are parameters, and the results hold for all their values.

| file | component |
|---|---|
| `Prelude.dfy`, `ClientIp.dfy`, `ByteStream.dfy` | shared values, canonical client addresses, fragmented streams |
| `ConnectionTracker.dfy` | global and per-address connection permits |
| `TokenBucket.dfy`, `BucketRace.dfy` | keyed token-bucket rate limiter, and its calls when they overlap |
| `PayloadLimit.dfy` | streaming payload limit and gRPC framing |
| `PathSanitizer.dfy`, `PathSanitizerLaws.dfy`, `PathErrors.dfy`, `PathSecondPass.dfy` | RFC 3986 path canonicaliser, its laws, its tables and errors, and sanitising twice |
| `SessionStore.dfy`, `SessionLaws.dfy`, `SessionCodes.dfy`, `SessionProtocol.dfy`, `SessionLockout.dfy` | login sessions: calls, runs, user codes, interleavings, lockout |
| `CircuitBreaker.dfy`, `ProbeGuards.dfy`, `LoadBalancer.dfy` | upstream health, recovery probes, selection and failover |
| `Rbac.dfy` | role rules |
| `RelayRegistry.dfy`, `ClientHello.dfy`, `ProxyProtocol.dfy` | relay routing table, TLS record reader, PROXY v2 headers |
| `HotReload.dfy` | listener table and hot reload |

Where the code does not do what its documentation, its names or a natural reading suggest, the code is
modelled as it is, the failing input is given, and the exact condition is proved:

- An address without connections must leave the per-address table (connection_tracker.rs, lines
  251-263). With a per-address cap of zero, which the configuration loader refuses
  (configuration.rs, line 1651) but the tracker accepts, every refused address leaves an entry of zero
  (`NoZeroEntryIff`).
- Every address of the all-zero IPv6 /64 except `::1` and the IPv4-mapped ones is canonicalised to `::`
  and escapes per-address accounting (`UncountedAddresses`).
- Pruning idle buckets is invisible, and the admission bound holds, exactly when a bucket refills
  within the time to live or the table has no room for any bucket (`PruningInvisibleIff`).
- Sanitising twice is not always sanitising once: `/%25%32e` becomes `/%252e`, which is then refused;
  and a letter outside ASCII is written as the characters of its bytes, so it grows with every pass and
  the upstream reads another path (`SecondPass`, `IdempotentIff`, `WireMeaningIff`).
- `/a/.` becomes `/a/` and its spelling `/a/%2e` becomes `/a` (`EquivalentPathsAgreeIff`,
  `TrailingDotSpellingMatters`).
- A probe guard dropped after its node recovered reopens the circuit of a live node
  (`AliveIffClosedUnlessDropped`).
- The trip counter misses every transition into Open made by a dropped guard, even of an ordinary
  abandoned probe (`TripsConserved`, `AbandonedProbeUncounted`).
- Two probes can be in flight at once, when a health check or another request reports on the node while
  a probe is out (`ExactThroughoutIff`, `TwoProbesAtOnce`); and a probe can follow another with no
  verdict between them, when the first was given up (`AnsweredFromHereIff`,
  `NoVerdictBetweenProbes`).
- A failure below the threshold on a dead node does not restart its cooldown (`CooldownRestartsIff`).
- The third wrong code is counted before the session is removed, and until then any number of further
  codes is answered, the right one included, which confirms the session (`LockoutKeptIff`,
  `NeverConfirmedIff`, `WrongCodesUnbounded`, `RightCodeAfterThree`).
- Calls that miss the same key at once all insert a full bucket and all pass, and the entry cap is
  checked before the insertion (`NoOverspendIff`, `RushPasses`, `CapKeptIff`).
- Two enabled server sections of one name both start, and the first can no longer be cancelled
  (`Gateway.Startup`, `Gateway.RunUntilShutdown`, `SecondOfName`).
- A fixed window of 15 requests a minute admits up to 29 creations in one minute, never 30
  (`CreationsPerMinute`, `CreationsPerMinuteTight`).

## Model

| member | source | states |
|---|---|---|
| `ClientIp.CanonicalIsIdempotent` | common/src/lib.rs:328-344 | Canonicalising a canonical address changes nothing, so a stored key and a recomputed key agree. |
| `ClientIp.CanonicalForms` | common/src/lib.rs:328-344 | IPv4 and its mapped form share one key, `::1` and `::` are their own, and any other IPv6 address keeps its first 64 bits and no others. |
| `ClientIp.MappedRoundTrip` | common/src/lib.rs:332-334 | An IPv4 address mapped into IPv6 is unwrapped to itself. |
| `ClientIp.UncountedAddresses` | common/src/lib.rs:328-344 | Exactly which addresses get an unspecified key and so escape per-address accounting. |
| `ClientIp.SameKeyIffSameSlash64` | common/src/lib.rs:338-341 | Two ordinary IPv6 clients share a key if and only if they share a /64. |
| `ConnectionTracker.StepKeepsInv` | server/src/connection_tracker.rs:47-157 | Each atomic step of acquire, bind and drop keeps: counter = holders, admitted within the limit, each address entry = guards counted under it. |
| `ConnectionTracker.EveryRunKeepsInv` | server/src/connection_tracker.rs:47-157 | The invariant holds after every interleaving of any number of actors. |
| `ConnectionTracker.Safety` | server/src/connection_tracker.rs:47-82 | In every interleaving guards never exceed the global limit, the overshooting counter never undercounts them, and every address entry is exact, within the cap and (under a positive cap) nonzero. |
| `ConnectionTracker.Quiescent` | server/src/connection_tracker.rs:85-99 | With no call in progress the counter is the number of live guards and the table holds exactly their addresses; with no guards both are empty: no permit leaks. |
| `ConnectionTracker.AcquireAloneDecides` | server/src/connection_tracker.rs:47-82 | Undisturbed, the steps of acquire yield a guard if and only if both limits leave room, count it once, and leave no trace otherwise. |
| `ConnectionTracker.DropUndoesAcquire` | server/src/connection_tracker.rs:85-99 | Undisturbed, dropping a guard restores every count to its value before acquire. |
| `ConnectionTracker.BindAloneDecides` | server/src/connection_tracker.rs:133-150 | In the concurrent protocol too, an unbound guard is bound and counted by one if and only if the canonical address is specified and below its cap; otherwise no count and no actor changes. |
| `ConnectionTracker.DropUndoesBind` | server/src/connection_tracker.rs:85-99 | Dropping a guard bound late gives back its permit and restores the count of its address. |
| `ConnectionTracker.NoZeroEntryIff` | server/src/connection_tracker.rs:58-73 | No run leaves an empty entry if and only if the per-address cap is positive or nothing can be admitted. |
| `ConnectionTracker.Tracker.Acquire` | server/src/connection_tracker.rs:47-82 | Success exactly when both limits leave room; a refusal reports the count it met and restores every count. |
| `ConnectionTracker.Tracker.BindIp` | server/src/connection_tracker.rs:133-150 | Counts an unbound guard under the canonical address unless that is full or unspecified; a bound guard is left alone. |
| `ConnectionTracker.Tracker.Release` | server/src/connection_tracker.rs:85-99 | Gives back one permit and one unit of the address, whose entry disappears at zero. |
| `TokenBucket.KeyedTokenBucketStore.TryConsume` | server/src/middleware/rate_limiter.rs:460-512 | The call refines the specification, keeps the table within its entry cap, and its answer is `Ok` if and only if a tracked key has a whole token or an unknown one finds room. |
| `TokenBucket.AnswerIff` | server/src/middleware/rate_limiter.rs:474-511 | What the answer means to a caller: `Ok` exactly with a whole token or with room for an unknown key; a throttled key is told the least whole seconds until it has one, lack of room is told one second. |
| `TokenBucket.SweptIff` | server/src/middleware/rate_limiter.rs:515-538 | Which buckets of other keys a call sweeps away: those idle for the time to live, exactly when a cleanup is due and not kept off by another. |
| `TokenBucket.RetainLevel` | server/src/middleware/rate_limiter.rs:515-520 | A cleanup takes no token from any key at any time, and gives none when buckets refill within the time to live. |
| `TokenBucket.ConsumeLevel` | server/src/middleware/rate_limiter.rs:460-512 | What one call does to the tokens of every key, whatever it prunes: one spent by an admission, none lost by others, a refusal only below one token. |
| `TokenBucket.SimulatesReference` | server/src/middleware/rate_limiter.rs:460-538 | If buckets refill within the time to live, the pruned store holds the same levels and gives the same answers as one that never forgets a key. |
| `TokenBucket.FullChangesNoLevel` | server/src/middleware/rate_limiter.rs:491-496 | A refusal for lack of room takes no token from any key, and changes no level at all when buckets refill within the time to live. |
| `TokenBucket.TokensConserved` | server/src/middleware/rate_limiter.rs:475-488 | Along every stretch of a run that agrees with the never-forgetting reference, admissions plus tokens left are at most a full bucket plus what flowed in. |
| `TokenBucket.AdmissionBound` | server/src/middleware/rate_limiter.rs:460-512 | If buckets refill within the time to live: for every key, run and stretch of T seconds at most capacity + rate * T calls are admitted. |
| `TokenBucket.TwoBurstsBreak` | server/src/middleware/rate_limiter.rs:515-520 | If they refill more slowly: a full burst, a pause and a second burst, all plain uncontended calls, exceed the bound and the reference. |
| `TokenBucket.PruningInvisibleIff` | server/src/middleware/rate_limiter.rs:515-538 | For every configuration the loader accepts, invisibility of pruning and the bound each hold in all runs, and in all runs of plain calls, if and only if time to live * rate >= capacity or the table has no room at all. |
| `TokenBucket.RetryAfterHonoured` | server/src/middleware/rate_limiter.rs:484-487 | A refused key that waits the announced seconds with no admission in between is admitted, unless the table has no room. |
| `TokenBucket.RetryAfterIsLeast` | server/src/middleware/rate_limiter.rs:484-487 | If buckets refill within the time to live, a call of that key a second or more short of the announced wait is throttled again. |
| `TokenBucket.FullIff` | server/src/middleware/rate_limiter.rs:491-496 | Only an unknown key is refused for lack of room, and exactly when the table is at its cap and no cleanup that may be made now frees a place; otherwise an unknown key is admitted. |
| `BucketRace.RunAccounts` | server/src/middleware/rate_limiter.rs:474-508 | In every interleaving of lookups and insertions at one instant, what passed and what is left exceed the tokens there were by exactly the number of overlapping calls. |
| `BucketRace.NoOverspendIff` | server/src/middleware/rate_limiter.rs:474-508 | After any such run, no continuation without an overlap passes more calls than there were tokens if and only if no two calls for the key have overlapped between a miss and its insertion. |
| `BucketRace.RushPasses` | server/src/middleware/rate_limiter.rs:474-508 | Any number of calls that miss one key at once all pass, whatever the capacity. |
| `BucketRace.CapKeptIff` | server/src/middleware/rate_limiter.rs:491-505 | The calls under way keep the table within its cap if and only if the keys it holds and the keys they missed fit together. |
| `BucketRace.CallAlone` | server/src/middleware/rate_limiter.rs:474-508 | Undisturbed, a lookup and the insertion after it make up the call. |
| `PayloadLimit.ScanFrame` | server/src/middleware/limit.rs:245-284 | The bulk-copy framing loop terminates and ends in the state of the byte-at-a-time automaton; a frame is refused exactly when that is a refused prefix. |
| `PayloadLimit.LimitedBody.PollFrame` | server/src/middleware/limit.rs:234-304 | What one frame does to the framing state, the byte counter and the answer, and the size reported on refusal. |
| `PayloadLimit.FeedAllAppend` | server/src/middleware/limit.rs:211-214 | Feeding a concatenation is feeding the parts in turn. |
| `PayloadLimit.RejectionRepeats` | server/src/middleware/limit.rs:258-269 | A refused stream stays refused with the same reported size. |
| `PayloadLimit.ChunkingIsIrrelevant` | server/src/middleware/limit.rs:234-304 | Acceptance depends on the bytes alone, not on where frames cut them. |
| `PayloadLimit.RefusedIffDeclaredTooMuch` | server/src/middleware/limit.rs:258-269 | A stream is refused if and only if a complete prefix declares more than the limit, and the first such length is reported. |
| `PayloadLimit.GrpcAcceptedIff` | server/src/middleware/limit.rs:234-304 | However cut and however long, a gRPC stream passes if and only if every complete prefix declares at most the limit. |
| `PayloadLimit.EncodedLens` | server/src/middleware/limit.rs:258-261 | Parsing the framing of any list of messages, each with its own compression flag, gives back exactly their lengths. |
| `PayloadLimit.MessagesPassIff` | server/src/middleware/limit.rs:694-764 | Any number of messages, cut anywhere, passes if and only if none exceeds the limit, whatever they add up to. |
| `PayloadLimit.PlainBodyBounded` | server/src/middleware/limit.rs:286-295 | A plain body hands on a prefix of at most the limit, and everything if and only if it fits. |
| `PayloadLimit.PollAll` | server/src/middleware/limit.rs:234-304 | A body polled to the end, trailers included: gRPC fails if and only if a prefix declares too much, reporting the first such length; a plain body delivers what the law above bounds and fails if and only if it does not fit. |
| `PathSanitizer.NormalizeSegment` | server/src/middleware/path_sanitizer.rs:174-202 | On checked escapes the segment loop computes the canonical spelling. |
| `PathSanitizer.CheckEscapes` | server/src/middleware/path_sanitizer.rs:76-170 | The skipping loop accepts exactly the texts in which every percent sign starts an escape. |
| `PathErrors.HexDigits` | server/src/middleware/path_sanitizer.rs:205-212 | Two hex digits of either case give back the byte they spell. |
| `PathErrors.OnlyHexDigits` | server/src/middleware/path_sanitizer.rs:205-212 | Nothing else is a hex digit. |
| `PathErrors.UnreservedIs` | server/src/middleware/path_sanitizer.rs:215-217 | The unreserved bytes are exactly the characters of section 2.3 of RFC 3986, listed one by one. |
| `PathErrors.TrailingIff` | server/src/middleware/path_sanitizer.rs:131-133 | A path asks for a trailing slash if and only if its last segment is empty or the text `.`. |
| `PathErrors.ErrorsInOrder` | server/src/middleware/path_sanitizer.rs:76-170 | Which error a refused path gets, each check stated by the characters it looks for and traversal by the decoded segments. |
| `PathSanitizer.CollectSegments` | server/src/middleware/path_sanitizer.rs:76-170 | Reports traversal exactly when some segment normalises to `..`, and otherwise keeps the canonical nontrivial segments in order. |
| `PathSanitizer.SanitizeAndNormalizePath` | server/src/middleware/path_sanitizer.rs:76-170 | The whole function computes the specification, errors in the order of its checks. |
| `PathSanitizer.NormalFacts` | server/src/middleware/path_sanitizer.rs:174-202 | Normalising a segment adds no escape, keeps the decoded bytes and is idempotent. |
| `PathSanitizer.NormalAppend` | server/src/middleware/path_sanitizer.rs:174-202 | Normalising and decoding distribute over concatenation. |
| `PathSanitizerLaws.FindsEscape` | server/src/middleware/path_sanitizer.rs:76-170 | On well-escaped text the case-insensitive substring search finds exactly the escapes of that byte. |
| `PathSanitizerLaws.RawChecksPass` | server/src/middleware/path_sanitizer.rs:76-170 | The textual checks pass if and only if escapes are valid, NUL, slash and backslash occur in no forbidden spelling, and no double-encoding pattern shows. |
| `PathSanitizerLaws.AcceptedIff` | server/src/middleware/path_sanitizer.rs:76-170 | Acceptance in terms of meaning: no decoded segment is `..` or contains slash, backslash or NUL. |
| `PathSanitizerLaws.DotsByMeaning` | server/src/middleware/path_sanitizer.rs:76-170 | Whether a segment is dropped or refused as a dot segment depends only on the bytes it stands for. |
| `PathSanitizerLaws.MeaningPreserved` | server/src/middleware/path_sanitizer.rs:76-170 | The decoded segments of the output text are those of the input without the empty ones and `.`, and none of them traverses. |
| `PathSanitizerLaws.SplitRender` | server/src/middleware/path_sanitizer.rs:76-170 | Splitting a written path gives its segments back. |
| `PathSanitizerLaws.JoinSplit` | server/src/middleware/path_sanitizer.rs:76-170 | Joining the segments of a path gives the path back. |
| `PathSanitizerLaws.TrailingRender` | server/src/middleware/path_sanitizer.rs:76-170 | A written path asks for a trailing slash exactly when it was written with one. |
| `PathSecondPass.DoubleByMeaning` | server/src/middleware/path_sanitizer.rs:174-202 | A normalised segment shows a double-encoding pattern if and only if the bytes it stands for contain the text of an escape of dot, slash, NUL or backslash. |
| `PathSecondPass.SecondPass` | server/src/middleware/inspection.rs:145 | The second pass, over the bytes of the first output, fails in one way only, and if and only if some input segment stands for such bytes; that needs `%25`; otherwise it returns what it reads. |
| `PathSecondPass.IdempotentIff` | server/src/middleware/inspection.rs:145 | Sanitising what was sanitised changes nothing if and only if the input was ASCII and hides no escape. |
| `PathSecondPass.WireMeaningIff` | server/src/middleware/path_sanitizer.rs:174-202 | The bytes written for an accepted path mean what the input meant if and only if the input was ASCII. |
| `PathSecondPass.NonAsciiGrows` | server/src/middleware/path_sanitizer.rs:194-198 | The two bytes of one letter come out as four. |
| `PathSecondPass.DoubleEncodingSurfaces` | server/src/middleware/inspection.rs:145 | A path accepted by the first pass and refused by the second. |
| `PathSanitizerLaws.NormalEqualIffEquivalent` | server/src/middleware/path_sanitizer.rs:174-202 | Two segments normalise equally if and only if steps of sections 6.2.2.1 and 6.2.2.2 of RFC 3986 lead from one to the other. |
| `PathSanitizerLaws.EquivalentPathsAgreeIff` | server/src/middleware/path_sanitizer.rs:76-170 | Well-escaped paths with equivalent segments are accepted together if and only if they agree on showing a double-encoding pattern or neither is acceptable; both accepted, they come out equal if and only if they agree on the trailing slash or keep no segment. |
| `PathSanitizerLaws.TrailingDotSpellingMatters` | server/src/middleware/path_sanitizer.rs:76-170 | Two equivalent paths, both accepted, with different outputs. |
| `SessionStore.ConstantTimeEq` | server/src/middleware/idp/session.rs:23-32 | Folding every pair of bytes decides equality. |
| `SessionStore.SessionStore.CreateSession` | server/src/middleware/idp/session.rs:146-222 | Creation refines the specification and keeps both tables within 5,000 and 10,000 entries. |
| `SessionStore.SessionStore.VerifySessionCode` | server/src/middleware/idp/session.rs:229-288 | Answer and new table of a verification: expiry, confirmation, counting and lockout in that order. |
| `SessionStore.SessionStore.ConfirmSession` | server/src/middleware/idp/session.rs:292-317 | A verified session gets the claims with its own audience; a failed verification passes its error on. |
| `SessionStore.SessionStore.GetAndConsume` | server/src/middleware/idp/session.rs:322-363 | The secret is checked before expiry and status; a confirmed session leaves the table with its answer. |
| `SessionCodes.MatchIff` | server/src/middleware/idp/session.rs:251-267 | A dash-free code is right if and only if it is not blank and equals the session's up to ASCII case, character by character. |
| `SessionCodes.DashesIgnored` | server/src/middleware/idp/session.rs:251-267 | A dash anywhere in the code given or in the code expected changes no answer. |
| `SessionCodes.SomeCodes` | server/src/middleware/idp/session.rs:251-267 | A refused code, blank ones refused, and one accepted in another spelling. |
| `SessionLaws.StoreFullIff` | server/src/middleware/idp/session.rs:146-222 | A session is refused for lack of room if and only if 5,000 have not expired. |
| `SessionLaws.TableFullIff` | server/src/middleware/idp/session.rs:146-222 | An address is refused for lack of room if and only if it has no record and 10,000 windows still run. |
| `SessionLaws.CreateAnswer` | server/src/middleware/idp/session.rs:146-222 | The same for the whole call, with the periodic cleanup in front. |
| `SessionLaws.CleanupWhenDue` | server/src/middleware/idp/session.rs:377-393 | Ten seconds after the last cleanup, a creation not kept off by another leaves nothing expired but what it makes itself. |
| `SessionLaws.CleanupInvisible` | server/src/middleware/idp/session.rs:388-393 | A cleanup changes no later answer, except that a session expired by then is not found instead of expired. |
| `SessionLaws.PruningKeepsLimit` | server/src/middleware/idp/session.rs:146-222 | In every run a creation the table has room for is rate limited exactly as a record that is never pruned says. |
| `SessionLaws.CreationsPerMinute` | server/src/middleware/idp/session.rs:146-222 | In any run and any 60 seconds one address creates at most 29 sessions. |
| `SessionLaws.CreationsPerMinuteTight` | server/src/middleware/idp/session.rs:146-222 | A run with fresh ids in which 29 creations fall within one second. |
| `SessionLaws.RunCounts` | server/src/middleware/idp/session.rs:229-288 | In every run a session still present has counted every wrong code, and fewer than three. |
| `SessionLaws.LockedOutAfterThree` | server/src/middleware/idp/session.rs:229-288 | Call by call, no session answers more than three wrong codes; after the third every attempt and every poll finds nothing, for good. |
| `SessionLaws.Lifecycle` | server/src/middleware/idp/session.rs:401-461 | A created session is confirmed once by its code, hands its claims once to its secret and is gone; another secret changes nothing. |
| `SessionProtocol.EveryRunKeepsInv` | server/src/middleware/idp/session.rs:229-363 | The invariant tying table, creations, commits and deliveries holds after every interleaving. |
| `SessionProtocol.OneTimeUse` | server/src/middleware/idp/session.rs:292-363 | In every interleaving a session is confirmed at most once and its claims are handed out at most once. |
| `SessionProtocol.RightDelivery` | server/src/middleware/idp/session.rs:292-363 | Claims go only to the session's own secret and are exactly those of its one commit, whose code matched, field by field, under the session's audience when it has one. |
| `SessionProtocol.CreationsStand` | server/src/middleware/idp/session.rs:146-222 | The secret, code and audience of a session never change. |
| `SessionProtocol.CreateAlone` | server/src/middleware/idp/session.rs:146-222 | The critical section of a creation enters what the call enters. |
| `SessionProtocol.CleanupAlone` | server/src/middleware/idp/session.rs:388-393 | Undisturbed, cleaning up entry by entry leaves exactly the live sessions. |
| `SessionLockout.AttemptsExact` | server/src/middleware/idp/session.rs:268-284 | In every interleaving a session still there has counted exactly the wrong codes answered for it. |
| `SessionLockout.LockoutKeptIff` | server/src/middleware/idp/session.rs:268-284 | In every interleaving no code is answered after the third wrong one if and only if no verification meets the pending, unexpired entry at three attempts or more. |
| `SessionLockout.NeverConfirmedIff` | server/src/middleware/idp/session.rs:268-317 | After any run and from any time on, no continuation confirms a session anew if and only if it is gone or confirmed, or has expired with no accepted confirmation on its way. |
| `SessionLockout.LockedOutWhenQuiet` | server/src/middleware/idp/session.rs:268-284 | Once no call is about to remove it, a session with three wrong codes is gone, and no continuation confirms it. |
| `SessionLockout.WrongCodesUnbounded` | server/src/middleware/idp/session.rs:268-284 | For every n, a run in which n wrong codes are answered and the session is still there. |
| `SessionLockout.RightCodeAfterThree` | server/src/middleware/idp/session.rs:280-284 | A run in which the right code is accepted after three wrong ones, the session confirmed and its claims handed out. |
| `SessionProtocol.VerifyAlone` | server/src/middleware/idp/session.rs:229-288 | Undisturbed, the critical sections of a verification make up the call. |
| `SessionProtocol.ConfirmAlone` | server/src/middleware/idp/session.rs:292-317 | Undisturbed, those of a confirmation make up the call, and it is logged exactly on success. |
| `SessionProtocol.PollAlone` | server/src/middleware/idp/session.rs:322-363 | Undisturbed, those of a poll make up the call, and a delivery is logged exactly when claims are returned. |
| `CircuitBreaker.UpstreamNode.IsAvailable` | server/src/configuration.rs:680-707 | A node is offered exactly when it is alive or a claim would win now. |
| `CircuitBreaker.AliveIff` | server/src/configuration.rs:521-624 | In every run a node is alive if and only if since its last reset it was not marked dead and failed fewer than max(threshold, 1) times; the probe flag is up exactly in HalfOpen. |
| `CircuitBreaker.AliveIffClosedUnlessDropped` | server/src/middleware/router/circuit_breaker.rs:144-158 | Alive and Closed coincide if and only if no guard was dropped since the node came back. |
| `CircuitBreaker.LateDropReopens` | server/src/middleware/router/circuit_breaker.rs:144-158 | A run in which they do not. |
| `CircuitBreaker.TripsConserved` | server/src/configuration.rs:521-550 | The trip counter is the transitions into Open, less those by dropped guards, plus the deaths these hid; it counts the transitions exactly if and only if the two cancel. |
| `CircuitBreaker.AbandonedProbeUncounted` | server/src/middleware/router/circuit_breaker.rs:144-158 | One abandoned probe: two transitions into Open, one trip counted. |
| `CircuitBreaker.NoDropsExact` | server/src/configuration.rs:521-550 | Without dropped guards the counter is exactly the transitions into Open. |
| `CircuitBreaker.ReleaseBetweenClaims` | server/src/configuration.rs:631-672 | Between two winning claims some call other than a claim comes: a claimed slot is not claimed again by itself. |
| `ProbeGuards.NodeRuns` | server/src/middleware/router/circuit_breaker.rs:123-158 | Seen from the node, requests with guards make a run of breaker calls, so the laws of those apply. |
| `ProbeGuards.StaysExactIff` | server/src/middleware/router/circuit_breaker.rs:123-158 | A step keeps the flag exact (up with one probe in flight, down with none) if and only if it is not a verdict by someone else while the flag is up. |
| `ProbeGuards.ExactThroughoutIff` | server/src/middleware/router/circuit_breaker.rs:123-158 | The flag is exact throughout a run if and only if nobody but the holder reports on the node while it is up. |
| `ProbeGuards.OneProbeFromHereIff` | server/src/middleware/router/circuit_breaker.rs:144-158 | After any run, no continuation without such a verdict ever has two probes in flight if and only if the flag is exact now. |
| `ProbeGuards.TwoProbesAtOnce` | server/src/middleware/router/circuit_breaker.rs:144-158 | A run with two probes in flight, and a third claim won while the second is still out. |
| `ProbeGuards.AnsweredFromHereIff` | server/src/middleware/router/circuit_breaker.rs:144-158 | After any run and from any time on, as long as no guard is abandoned every probe won is preceded by a verdict on the one before it, if and only if the last one was not given up. |
| `ProbeGuards.SilentNeedsGivingUp` | server/src/middleware/router/circuit_breaker.rs:144-158 | Two probes in a row with no verdict between them need the first given up by a dropped guard. |
| `ProbeGuards.NoVerdictBetweenProbes` | server/src/middleware/router/circuit_breaker.rs:144-158 | Two probes with nothing reported between them. |
| `CircuitBreaker.ClaimAfterCooldown` | server/src/configuration.rs:631-672 | A winning claim comes more than the cooldown after every earlier trip. |
| `CircuitBreaker.ClaimAfterFailedProbe` | server/src/configuration.rs:599-624 | A winning claim comes more than the cooldown after every earlier failed probe, for every threshold. |
| `CircuitBreaker.FailedProbeDies` | server/src/configuration.rs:599-624 | A failure recorded while the probe flag is up leaves the node dead with that call's time, whatever the threshold. |
| `CircuitBreaker.TripsIff` | server/src/configuration.rs:599-624 | In every run a failure is reported as a trip if and only if the probe flag was up or the failures since the last reset reach max(threshold, 1). |
| `CircuitBreaker.FailureTimeIs` | server/src/configuration.rs:521-624 | In every run the recorded failure time is that of the last death, and zero for a live node. |
| `CircuitBreaker.ClaimWinsIff` | server/src/configuration.rs:631-672 | By history: a claim wins if and only if the node is dead and unprobed and more than the cooldown has passed since its death. |
| `CircuitBreaker.FailuresCounted` | server/src/configuration.rs:521-624 | The failure counter counts every mark and every failure once. |
| `CircuitBreaker.IdleSuccess` | server/src/configuration.rs:582-591 | A success on a live node without failures changes nothing, even where a late drop has left the circuit open. |
| `CircuitBreaker.CooldownRestartsIff` | server/src/configuration.rs:599-624 | It also comes that long after every recorded failure if and only if the threshold is at most one. |
| `LoadBalancer.Candidates` | server/src/configuration.rs:779-856 | Available untried nodes if there are any, never a tried one while an untried one is left, and never nothing. |
| `LoadBalancer.RouteTarget.NextUpstream` | server/src/configuration.rs:779-856 | The strategy's choice among the candidates and the new round-robin counter. |
| `LoadBalancer.RouteTarget.Turn` | server/src/configuration.rs:779-856 | Round robin is fair: over a constant list of n > 1 candidates any n calls in a row pick each exactly once. |
| `LoadBalancer.MinConnections` | server/src/configuration.rs:779-856 | The first candidate with the fewest connections. |
| `LoadBalancer.MaxScore` | server/src/configuration.rs:779-856 | The last candidate with the highest score. |
| `LoadBalancer.RouteTarget.Failover` | server/src/middleware/router/http_proxy.rs:52-130 | Whatever the strategy and however health and load change, a retry loop repeats no address before every distinct one was tried. |
| `LoadBalancer.NoRepeatBeforeAll` | server/src/middleware/router/http_proxy.rs:52-130 | The counting argument behind it, for any sequence of picks that prefer untried addresses. |
| `Rbac.FromRaw` | server/src/configuration.rs:1981-1998 | In whatever order rules come, exact ones are filed by path and wildcard ones by prefix, longest first, none lost. |
| `Rbac.SortByLength` | server/src/configuration.rs:1981-1998 | A permutation, longest prefix first. |
| `Rbac.MatchPath` | server/src/configuration.rs:2004-2014 | The compiled lookup gives the meaning of the raw table: the exact rule, else the longest matching prefix, else none. |
| `Rbac.DecidesOneAnswer` | server/src/configuration.rs:2004-2014 | That meaning is one answer per path, so the order of compilation cannot matter. |
| `RelayRegistry.EveryRunKeepsInv` | relay-server/src/main.rs:638-740 | Generations are unique and every route is owned, after every interleaving. |
| `RelayRegistry.RoutesAreOwned` | relay-server/src/main.rs:638-740 | Every route belongs to exactly one connection that has not run its removal and whose certificate names the SNI. |
| `RelayRegistry.ClearedIff` | relay-server/src/main.rs:638-664 | A request gets on if and only if a DNS name of the certificate is the requested one up to ASCII case and no healthy tunnel is found under it; otherwise nothing changes. |
| `RelayRegistry.RemovalSparesSuccessors` | relay-server/src/main.rs:740 | A dying connection never deletes the route of the one that replaced it. |
| `RelayRegistry.EndedLeavesNothing` | relay-server/src/main.rs:740 | When every connection has run its removal, no route is left. |
| `RelayRegistry.RegisterAlone` | relay-server/src/main.rs:638-740 | Undisturbed, a cleared registration is routed under a new generation and removed without a trace. |
| `ClientHello.ReadClientHelloRecord` | relay-server/src/main.rs:201-265 | For every fragmentation the reader returns exactly the first handshake record and leaves the rest, or the right error. |
| `ClientHello.RecordIff` | relay-server/src/main.rs:201-265 | A record is given if and only if it is complete and declares at most 16384 bytes; each error has its exact condition. |
| `ClientHello.RecordRoundTrip` | relay-server/src/main.rs:201-265 | A record of up to 16384 bytes is read back whole, whatever follows. |
| `ProxyProtocol.EncodeProxyV2` | common/src/proxy_protocol.rs:40-83 | The bytes of the header, and that reading them back, followed by anything, gives the source address. |
| `ProxyProtocol.ReadProxyV2` | common/src/proxy_protocol.rs:90-158 | For every fragmentation the result depends on the bytes alone and exactly the header is consumed. |
| `ProxyProtocol.AnyHeaderRead` | common/src/proxy_protocol.rs:90-158 | Any version 2 header, whatever command, family and payload up to 1024 bytes, is consumed to the end of its payload and no further. |
| `ProxyProtocol.RoundTrip` | common/src/proxy_protocol.rs:40-158 | Encode then parse is the source address, mapped IPv4 unwrapped, and leaves what followed. |
| `ByteStream.Stream.ReadExact` | common/src/proxy_protocol.rs:90-158 | Exactly the next bytes however they arrive, or none at the end of the stream. |
| `HotReload.Gateway.Startup` | server/src/server.rs:182-214 | Each name runs the last section of that name that is enabled and builds, and no other; no listener runs outside the table if and only if those sections have distinct names. |
| `HotReload.StartableIs` | server/src/server.rs:182-214 | The sections startup runs are exactly the enabled ones whose stack builds, in their order. |
| `HotReload.SecondOfName` | server/src/server.rs:182-214 | Two enabled sections of one name: whatever the reloads, a listener outlives the shutdown. |
| `HotReload.Gateway.DryRun` | server/src/server.rs:243-275 | Errors exactly when some enabled section fails to build; otherwise the enabled sections by name. |
| `HotReload.EnabledIs` | server/src/server.rs:243-275 | A reload runs, for each name with an enabled section, the last of them. |
| `HotReload.Gateway.TakeOverOrStart` | server/src/server.rs:281-322 | Takes over the listeners whose binding is unchanged and starts the others under new tokens. |
| `HotReload.Gateway.Reload` | server/src/server.rs:225-331 | All or nothing: a failed dry run changes nothing; a successful one runs exactly the enabled sections, keeps a token exactly when address, port, protocol and tunnel are unchanged, and cancels the rest. |
| `HotReload.Gateway.Serve` | server/src/server.rs:182-331 | After startup and any reloads the table runs what the last applied reload enables, or what startup ran; and the running listeners are exactly those of the table if and only if the sections started first had distinct names. |
| `HotReload.Gateway.RunUntilShutdown` | server/src/server.rs:182-338 | Nothing outlives the shutdown if and only if the sections started first had distinct names. |

## Left out

- Tower layers, HTTP plumbing, TLS, X.509, JWT, Yamux, logging, metrics, DNS and configuration parsing: no state of their own that these properties need.
- The simple one-request-per-interval limiter (`KeyedSimpleRateLimitStore`) and the concurrency limiter's permit held by a response body: both would repeat, with less state, the arguments made for the token bucket and the connection tracker.
- The relay's own connection tracker and PROXY prefix stream: the same shape as the modelled ones.
- The `Content-Length` stage and content-type detection in front of the payload limit.
- The syntax check of a requested SNI and the parsing of the REGISTER line: a request that fails them never reaches the table.
- Timeouts and I/O errors other than end of stream, and a configuration file that does not load (the reload is skipped before it begins).
- Regular-expression matching in the allow-list that follows the second path pass.
- PathSanitizerLaws.MeaningPreserved: about the output as characters; what its bytes mean to the next reader is `PathSecondPass.WireMeaningIff`.
- TokenBucket.KeyedTokenBucketStore.TryConsume: levels are real numbers, so floating-point rounding is not captured; capacity, refill and interval are fixed per store, as every caller does.
- TokenBucket.SimulatesReference: calls are atomic. What overlapping ones add is `BucketRace`, within one instant; a clock reading taken before another call's and used after it is not modelled.
- SessionLaws.LockedOutAfterThree: call by call; what overlapping calls do to the lockout is `SessionLockout`.
- SessionLaws.CreationsPerMinute: per call, with one clock reading for each call.
- SessionStore.SessionStore.CreateSession: random ids, secrets and codes are parameters; that ids are fresh is an assumption of the lemmas that need it.
- SessionStore.SessionStore.VerifySessionCode: a blank code is one of ASCII white space.
- CircuitBreaker.AliveIff: each call is one step; the interleaving of the single atomic loads and stores inside two calls is not modelled. A guard may be dropped at any moment, which covers every real drop; `ProbeGuards` says which are real. Counters do not wrap and the cooldown sum does not saturate.
- ProbeGuards.StaysExactIff: completing a guard and reporting its verdict are one step.
- LoadBalancer.RouteTarget.NextUpstream: the hash of a client address and the random number are parameters, and the counter does not wrap.
- LoadBalancer.RouteTarget.Failover: only the choice of nodes; the limits on retries, buffering and idempotence end the loop earlier.
- RelayRegistry.RoutesAreOwned: does not promise that a healthy tunnel is never replaced; the health check and the insertion are separate steps, and two registrations of one name can both pass the check.
- ClientHello.ReadClientHelloRecord: the timing of the preview of a stream that is no handshake is a parameter, so only its length and that it is a prefix are stated.
- HotReload.Gateway.Reload: binding the socket, draining connections and the global configuration object are not modelled.
- Integer widths: counters are unbounded. The widths that matter (bytes, 16-bit lengths and ports, 32-bit message lengths) are written out.
