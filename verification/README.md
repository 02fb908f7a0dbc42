# Verified model of the LatchGate enforcement core

LatchGate sits between agents and the actions they may take. This project models the parts of it whose
correctness depends on state, interleaving, crashes or string arithmetic, and proves what they guarantee:

- **Replay protection** (`Replay`, `ReplayThreads`, `Throttle`, `Auth`). The in-memory cache of DPoP proof
  identifiers, once as a class with a sequential specification and once as a machine of many threads whose
  every shared access is a step; the authentication pipeline in front of it; the log throttle beside it.
- **Operator approvals** (`Approvals`, `ApprovalHistory`, `ApprovalRuns`, `ApprovalProgress`, `ApprovalGate`). Concurrent approve and deny calls over a
  volatile store and a durable ledger, with claim expiry, store loss and rollback, failing stores and crashes.
- **Policy document** (`Utf8`, `OrderedSet`, `Json`, `Policy`, `PolicyRuns`, `PolicyAnswers`, `PolicySections`,
  `PolicyAccess`, `Version`, `AtomicFile`, `PolicyStore`). Grants, revokes and allowlist edits of a JSON document, its version string, the
  crash-safe file replacement, and the composition of all of these.
- **Expiry scanner** (`Expiry`) and **response bodies** (`JsonResponse`).

Classes and loops follow the imperative parts of the source; each method is proved against a function of
values, and the guarantees are proved about whole runs of that function or machine. Integers wrap where the
source uses fetch-and-add; the one checked 64-bit addition that can overflow is an explicit abort, because
release builds enable overflow checks and abort on panic (`Cargo.toml:262-267`).

## Where the code and its documentation part

- The replay TTL is documented as at least skew plus maximum age (65 s). Because whole seconds are compared, a
  proof can be used twice with that TTL; the exact bound is 66 s. The shipped 180 s satisfies it
  (`Auth.OncePerProofIsExact`).
- A request stamps its entry with the time it read before it took the lock, so two grants of one identifier can
  be less than a TTL apart (`ReplayThreads.GrantGapIsExact`). What is guaranteed after each grant is exactly the
  TTL less the delay of its request (`ReplayThreads.GapPerGrantIsExact`).
- A sweep that overlaps a request can cause refusals although there is room, can make the counter wrap, and can
  let the map grow past its hard cap (`ReplayThreads.CapacityRefusalIsExact`,
  `ReplayThreads.OverlappedStoreWrapsTheCounter`, `ReplayThreads.CapIsHardExactly`). `ReplayThreads.CounterLaw`
  says for all runs when the counter is right.
- "Parallel requests race on the claim … all others get 404": a claim held by another call and a durable-outcome
  collision are answered with a conflict; the model follows the code.
- A failed ledger write is logged and ignored, and a failed ledger read counts as "no outcome". Durability of
  terminal states holds exactly if writes do not fail; late calls are inert exactly if reads do not fail or no
  claim can be lost (`ApprovalRuns.TerminalIsDurableExactly`, `ApprovalRuns.LateIsInertExactly`).
- A claim is lost when it expires or when the volatile record comes back in an older version. Then a second call
  can act before the first has written: it reports an approval, and so does the record, while the ledger keeps
  the denial (`ApprovalRuns.LostClaimRun`); and a later call that finds a durable outcome completes the record as
  failed even over an approved one (`ApprovalRuns.TakeoverContradictsLedger`). Record, replies and ledger agree
  exactly if claims cannot be lost and ledger writes do not fail (`ApprovalRuns.AgreementExactly`).
- Domains and paths are learned after the claim and before the execution, not after its success; the machine
  has the code's order.
- The file replacement is called durable; the directory is not synced, so a power loss can undo a finished
  rename (`AtomicFile.DurableExactly`, `AtomicFile.SurvivorIsVisible`). It never leaves a partial file.
- Revoking the last action of a principal removes its entry, which lets the wildcard entry apply to it again;
  the first grant to a principal shuts the wildcard out (`PolicyAccess.RevokeNarrowsExactly`,
  `PolicyAccess.GrantWidensExactly`).

## Model

| member | source | states |
|---|---|---|
| Replay.ReplayCache.CheckAndStore | crates/latchgate-auth/src/replay.rs:287-348 | one check refines the specification step: fresh entry refused, expired one overwritten without counting, new one admitted only below the cap with the counter restored on refusal |
| Replay.ReplayCache.EvictExpired | crates/latchgate-auth/src/replay.rs:357-376 | the entry-by-entry sweep leaves exactly the unexpired entries and resets the counter to their number |
| Replay.VerdictIsHistory | crates/latchgate-auth/src/replay.rs:287-376 | over any run with sweeps anywhere, a probe is a replay exactly if the full acceptance history holds the same identifier younger than the TTL; a capacity refusal exactly if not and the map is full |
| Replay.RefinesUnboundedHistory | crates/latchgate-auth/src/replay.rs:287-376 | up to and including the first capacity refusal, replay answers equal those of a specification with unbounded memory and no cap |
| Replay.AnswersMatchExactly | crates/latchgate-auth/src/replay.rs:287-376 | over any first n events, acceptance equals that of the unbounded specification for every probe, if and only if none of them was refused for capacity |
| Replay.HistoriesPartAfterARefusal | crates/latchgate-auth/src/replay.rs:316-330 | a run after whose capacity refusal the two histories differ, so the condition on earlier refusals is needed |
| Replay.SweepKeepsExactlyTheFresh | crates/latchgate-auth/src/replay.rs:357-376 | after a sweep an identifier is stored exactly if history accepted it within the TTL, and the counter is the number of entries |
| Replay.CountedHolds | crates/latchgate-auth/src/replay.rs:316-346 | in every sequential run the counter equals the number of entries and stays within the cap |
| ReplayThreads.ReplaySafety | crates/latchgate-auth/src/replay.rs:287-376 | under every interleaving of checks and entry-wise sweeps, a second grant of an identifier comes at least a TTL after the first request's clock reading, whatever the counter holds; a full TTL after the grant if reading and deciding coincide |
| ReplayThreads.GrantGapIsExact | crates/latchgate-auth/src/replay.rs:294-316 | grants themselves are a TTL apart in all runs if and only if the TTL or the cap is zero or there is no worker |
| ReplayThreads.GapPerGrantIsExact | crates/latchgate-auth/src/replay.rs:294-316 | after a grant delayed by d, all continuations keep a given gap to the next grant of the identifier if and only if the gap is at most the TTL less d |
| ReplayThreads.CounterIsExact | crates/latchgate-auth/src/replay.rs:316-346 | in runs whose sweeps store the right count: stored + pending inserts never exceed the cap, and between sweeps counter = stored + pending inserts + pending undos; if no undo is pending at a store, a pending undo means that the cap is reached |
| ReplayThreads.CounterLawBeforeStores | crates/latchgate-auth/src/replay.rs:316-369 | in all runs, before the first store the counter is right (as a 64-bit word) if and only if nothing was removed |
| ReplayThreads.CounterLaw | crates/latchgate-auth/src/replay.rs:316-376 | in all runs, from a store to the next the counter is right (as a 64-bit word) if and only if the stored count plus the removals since equals the entries stored and the inserts and undos pending at that store |
| ReplayThreads.CapIsHardExactly | crates/latchgate-auth/src/replay.rs:196-372 | the cap is never exceeded if and only if sweeps are excluded (or nothing can be inserted at all) |
| ReplayThreads.CapacityRefusalIsExact | crates/latchgate-auth/src/replay.rs:316-376 | no request is refused while room remains, if and only if sweeps are excluded (or there is no room or no worker at all) |
| ReplayThreads.OverlappedStoreWrapsTheCounter | crates/latchgate-auth/src/replay.rs:372-372 | a reachable idle state with an empty map and a wrapped counter |
| ReplayThreads.WrappedCounterRefuses | crates/latchgate-auth/src/replay.rs:318-346 | with a single worker, a wrapped counter over an empty map refuses every identifier in every continuation until the next store |
| Throttle.WarnThrottle.ShouldWarn | crates/latchgate-auth/src/replay.rs:55-77 | one event refines the window step, including the reported number of suppressed events |
| Throttle.OpensExactly | crates/latchgate-auth/src/replay.rs:55-72 | under any clock, an event opens a window if and only if it comes at least 60 s after the latest opening event, or after time zero if there is none |
| Throttle.Conservation | crates/latchgate-auth/src/replay.rs:37-77 | events = warned + reported as suppressed + suppressed in the open window, for every sequence |
| Throttle.WindowLaw | crates/latchgate-auth/src/replay.rs:37-77 | a window of n events warns exactly min(10, n) times and its summary reports exactly the rest |
| Throttle.SpanBound | crates/latchgate-auth/src/replay.rs:37-77 | with a non-decreasing clock any span under 60 s warns at most 20 times |
| Auth.TokenRoundTrip | crates/latchgate-auth/src/auth.rs:299-315 | a token is extracted exactly from the scheme prefix followed by that non-empty token |
| Auth.Authenticate | crates/latchgate-auth/src/auth.rs:200-247 | header, lease, proof, cache in this order with the source's errors; the cache changes only after all verification succeeded |
| Auth.AuthenticatesExactly | crates/latchgate-auth/src/auth.rs:200-247 | a request gets a context if and only if token, proof, lease and binding are good, iat is within 60 s back and 5 s ahead, the proof belongs to the lease, and its identifier is neither remembered nor shut out; each field of the context is the right one |
| Auth.FailsExactly | crates/latchgate-auth/src/auth.rs:200-247 | which error each failing check earns, in the order of the checks |
| Auth.OnlySuccessIsStored | crates/latchgate-auth/src/auth.rs:224-235 | only an authenticated request changes the cache, and it stores its own identifier at its own time |
| Auth.Erasure | crates/latchgate-auth/src/auth.rs:200-247 | deleting all unverified requests from any input sequence leaves the final cache and every other reply unchanged |
| Auth.AcceptanceWindow | crates/latchgate-auth/src/dpop/verify.rs:444-462 | two instants at which one proof passes the iat window are less than 66 s apart |
| Auth.NoReuse | crates/latchgate-auth/src/auth.rs:222-235 | with a TTL of at least 66 s no proof authenticates twice in a whole run |
| Auth.OncePerProofIsExact | crates/latchgate-auth/src/replay.rs:14-15 | a proof authenticates at most once in every run if and only if the TTL is at least skew + maximum age + 1 s; true of the shipped TTL, false of the documented bound |
| Approvals.DurableIsForever | crates/latchgate-ledger/src/store_approvals.rs:25-50 | no step of any call, loss or rollback changes a durable outcome |
| Approvals.ClaimLastsItsTtl | crates/latchgate-state/src/approval_redis.rs:106-146 | another claim is refused as taken if and only if it comes before the TTL has passed, and granted if and only if after |
| Approvals.FinishedIsFinal | crates/latchgate-state/src/approval_redis.rs:161-246 | a marked or completed record is never claimed again, the first marker stays, and a call without the claim changes nothing |
| ApprovalHistory.ClaimHoldsInRuns | crates/latchgate-state/src/approval_redis.rs:122-143 | in every run, over a record that holds a claim won at some clock, a claim is granted if and only if a TTL has passed since that clock |
| ApprovalHistory.TakeoversComeLate | crates/latchgate-state/src/approval_redis.rs:122-143 | every takeover in a run comes at least a TTL after the claim it takes over was won |
| ApprovalHistory.LogsAreHistory | crates/latchgate-api/src/approvals.rs:271-402 | who claimed, learned, acted, wrote, was let through and was superseded, and that the durable outcome is that of the first successful ledger write, all read off the steps of the run |
| Approvals.TidyAlong | crates/latchgate-api/src/approvals.rs:271-344 | in every run a call claims at most once, only claimants meet the guard, and only calls it let through learn, act or write |
| Approvals.ActsBound | crates/latchgate-api/src/approvals.rs:271-402 | if ledger reads succeed, in every reachable state all acting calls but one were superseded before their ledger write; so acting calls are at most one more than superseded ones |
| ApprovalRuns.ActsAreClaimedExactly | crates/latchgate-kernel/src/ops/approvals.rs:217-224 | that bound holds in all runs if and only if ledger reads do not fail or no claim can be lost |
| ApprovalRuns.OneActExactly | crates/latchgate-api/src/approvals.rs:9-14 | at most one call acts in every run if and only if no claim can be lost |
| ApprovalRuns.OneOutcome | crates/latchgate-api/src/approvals.rs:259-402 | in a run without takeover and rollback: one claimant and at most one act whatever fails, late calls inert, and with working ledger writes record, replies and ledger agree |
| ApprovalRuns.ReportsAreDurable | crates/latchgate-api/src/approvals.rs:271-402 | takeovers, rollbacks, purges and crashes allowed: if the ledger works and no call that was let through was superseded before its write, every reported outcome is the durable one and at most one call acts |
| ApprovalRuns.AgreementExactly | crates/latchgate-api/src/approvals.rs:259-402 | record, replies and ledger agree in every reachable state if and only if ledger writes do not fail and no claim can be lost; the same for reported outcomes alone |
| ApprovalRuns.LostClaimRun | crates/latchgate-state/src/approval_redis.rs:106-146 | whenever claims can be lost, a run in which two calls act, the ledger says denied, and the second call and the record say approved |
| ApprovalRuns.TerminalIsDurableExactly | crates/latchgate-api/src/approvals.rs:368-402 | a terminal record or reply always has a durable outcome behind it, through crashes, purges and rollbacks, if and only if ledger writes do not fail |
| ApprovalRuns.LateIsInertExactly | crates/latchgate-api/src/approvals.rs:276-343 | calls started after a durable outcome learn, act and write nothing whatever the volatile store holds, if and only if ledger reads do not fail or no claim can be lost |
| ApprovalRuns.TakeoverContradictsLedger | crates/latchgate-kernel/src/ops/approvals.rs:335-342 | whenever claims can be lost, a reachable state whose ledger says approved and whose volatile record says failed |
| ApprovalProgress.WriteThenFinalize | crates/latchgate-kernel/src/ops/approvals.rs:134-186 | in every run each call makes at most one ledger write, then one marker, then one completion, of one kind; a call that reports an outcome made exactly one of each |
| ApprovalProgress.BoundCallsEnd | crates/latchgate-api/src/approvals.rs:738-773 | in every reachable state a denial that was let through and an approval past learn-path validation have crashed, have reported an outcome, or are at most four own steps from it with the next one enabled |
| ApprovalProgress.OwnStepsCount | crates/latchgate-api/src/approvals.rs:738-773 | every own step but a crash brings such a call exactly one step closer |
| ApprovalProgress.BoundCallCanFinish | crates/latchgate-api/src/approvals.rs:865-874 | from every reachable state such a call can bring itself to its outcome |
| ApprovalGate.OneReplyIsEarned | crates/latchgate-api/src/approvals.rs:276-343 | the table of store states and replies gives at most one reply for each state |
| ApprovalGate.Gate.FallBack | crates/latchgate-api/src/approvals.rs:202-214 | the ledger's outcome if it can be read, else missing or unavailable; passes only through reachable states |
| ApprovalGate.Gate.LoseClaim | crates/latchgate-api/src/approvals.rs:285-320 | a refused claim earns the reply of the table: terminal status, failed status read, concurrent claim, missing record |
| ApprovalGate.Gate.MeetGuard | crates/latchgate-api/src/approvals.rs:323-343 | lets through exactly if no durable outcome is seen; otherwise conflict, with the ledger untouched |
| ApprovalGate.Gate.ClaimOrShortCircuit | crates/latchgate-api/src/approvals.rs:271-344 | admits exactly if the claim arrives, is granted and heard, and the guard sees no outcome; otherwise the reply is the one the state of the two stores earns; passes only through reachable states |
| ApprovalGate.Gate.WriteDurable | crates/latchgate-kernel/src/ops/approvals.rs:189-214 | the first outcome stays; a failed write changes nothing and the call goes on |
| ApprovalGate.Gate.Finalize | crates/latchgate-kernel/src/ops/approvals.rs:134-186 | while the claim is owned, marker or completion alone makes the record terminal; without it the record is untouched; the ledger never is |
| ApprovalGate.Gate.WriteOutcomeAndFinalize | crates/latchgate-api/src/approvals.rs:373-402 | ledger insert keeps the first outcome; the record ends terminal with the same kind while the claim is owned and is untouched otherwise |
| ApprovalGate.Gate.DenyCall | crates/latchgate-api/src/approvals.rs:797-903 | a denial that claims ends denied, recorded and terminal; any other gets the reply its stores earn, has no effect on the ledger and denies nothing |
| ApprovalGate.Gate.Execute | crates/latchgate-api/src/approvals.rs:738-786 | past learn-path validation the call ends approved or failed, with a durable outcome and a terminal record; preparation failures execute nothing |
| ApprovalGate.Gate.ApproveCall | crates/latchgate-api/src/approvals.rs:603-786 | the reply in every case; a rejected learn path keeps the claim and executes nothing; acts exactly if it reports an outcome and was prepared |
| Version.ParsePrinted | crates/latchgate-core/src/policy_data.rs:61-64 | parsing a printed number gives it back exactly if it fits 64 bits |
| Version.ParseNumber | crates/latchgate-core/src/policy_data.rs:61-64 | an optional plus sign, any leading zeros and the digits parse to the number exactly if it fits 64 bits |
| Version.IncrementNumber | crates/latchgate-core/src/policy_data.rs:59-66 | a number in any spelling after the last dash moves to its plain successor; the limit aborts; beyond it the text is no number |
| Version.IncrementOther | crates/latchgate-core/src/policy_data.rs:64-71 | any other suffix and any version without a dash gets a first number; the empty version becomes v1 |
| Version.VersionsSplit | crates/latchgate-core/src/policy_data.rs:59-71 | every version falls under one of these cases |
| Version.ShippedVersion | definitions/policies/opa/data.json:3-3 | the version of the shipped document moves to m0-dev-2 |
| Version.FirstIncrement | crates/latchgate-core/src/policy_data.rs:53-75 | any non-empty version moves to its base prefix followed by the next number, and fails exactly at the 64-bit limit |
| Version.ClosedForm | crates/latchgate-core/src/policy_data.rs:53-75 | the k-th increment of any non-empty version is a fixed prefix and consecutive decimals, and exists exactly as long as they fit 64 bits |
| Version.ClosedFormFromMissing | crates/latchgate-core/src/policy_data.rs:53-75 | from a missing version: v1, then v1-1, v1-2 and so on |
| Version.VersionsDistinct | crates/latchgate-core/src/policy_data.rs:53-75 | all versions of a run, the first included, are pairwise distinct |
| Policy.CheckIds | crates/latchgate-api/src/policy.rs:251-259 | the first offending identifier decides; none is reported exactly if all are valid and, for grants, registered |
| Policy.IdsExactly | crates/latchgate-api/src/policy.rs:47-60 | the byte-wise checks accept exactly the strings of 1 to 253 characters of the alphabet, and of 1 to 128 with the colon for the allowlist |
| Policy.CollectActions | crates/latchgate-api/src/policy.rs:280-288 | the ascending list of exactly the strings that are elements of the stored array, none if it is missing or no array |
| Policy.DeriveSinks | crates/latchgate-api/src/policy.rs:105-118 | the nested loops produce the ascending list of exactly the union of declared side effects |
| Policy.InsertAll | crates/latchgate-api/src/policy.rs:290-292 | inserting one by one gives the ascending list of the union, in whatever order the request names actions |
| Policy.RemoveAll | crates/latchgate-api/src/policy.rs:433-435 | removing one by one gives the ascending list of the difference |
| Policy.GrantEntry | crates/latchgate-api/src/policy.rs:272-303 | the entry after a grant is the derived one for the union of stored and granted actions, keeps its other members, and is refused exactly if it is no object |
| Policy.GrantIn | crates/latchgate-api/src/policy.rs:269-309 | the nested edits equal setting the derived entry at its path and advancing the version, with the source's failures |
| Policy.RevokeIn | crates/latchgate-api/src/policy.rs:404-459 | likewise for revokes: missing principal unchanged, emptied entry removed |
| Policy.IncrementVersion | crates/latchgate-core/src/policy_data.rs:53-75 | a missing, empty or non-string version becomes v1, any other its successor, overflow aborts; no other member changes |
| Policy.EnsureAcl | crates/latchgate-core/src/policy_data.rs:35-43 | afterwards the section is there and an object, holding what it held if it was one, and every other path of the document leads where it led before |
| Policy.Document.GrantActions | crates/latchgate-api/src/policy.rs:222-312 | validation then edit; whatever does not end in a write leaves the document untouched |
| Policy.Document.RevokeActions | crates/latchgate-api/src/policy.rs:364-471 | validation then edit; whatever does not end in a write leaves the document untouched |
| Policy.Document.EnsureAllowlist | crates/latchgate-api/src/policy_allowlist.rs:91-105 | afterwards both containers are there and objects, every path but theirs leads where it led before, and only a non-null non-object root fails |
| Policy.Document.AddAllowlistEntry | crates/latchgate-api/src/policy_allowlist.rs:123-164 | the nested edits equal setting one path to true |
| Policy.Document.RemoveAllowlistEntry | crates/latchgate-api/src/policy_allowlist.rs:228-269 | the nested edits equal deleting one path and the action map it empties; absent pairs refused |
| PolicyRuns.GrantIsServedExactly | crates/latchgate-api/src/policy.rs:233-309 | a grant succeeds if and only if its fields are valid and registered, root and entry are objects, and the version can grow |
| PolicyRuns.RevokeIsServedExactly | crates/latchgate-api/src/policy.rs:375-459 | the same for revokes, whose actions need not be registered |
| PolicyAnswers.AllowIsServedExactly | crates/latchgate-api/src/policy_allowlist.rs:123-164 | an addition succeeds if and only if its identifiers are valid, the action is registered, and the root is an object or null |
| PolicyAnswers.DisallowIsServedExactly | crates/latchgate-api/src/policy_allowlist.rs:228-269 | a removal succeeds if and only if its identifiers are valid and the pair is present |
| PolicyAnswers.RefusedExactly | crates/latchgate-api/src/policy.rs:233-279 | a request is refused for a reason if and only if it earns it: the table of all reasons, the first bad action deciding |
| PolicyAnswers.UnchangedExactly | crates/latchgate-api/src/policy.rs:410-420 | only the valid revoke of a principal without an entry succeeds without writing |
| PolicyAnswers.AbortedExactly | crates/latchgate-core/src/policy_data.rs:53-75 | a valid request ends in a panic if and only if the version is at its limit, or the root is neither object nor null |
| PolicyRuns.LastGrantOrRevokeWins | crates/latchgate-api/src/policy.rs:269-473 | after any run an action is listed for a principal exactly if the last successful request naming both was a grant, or none did and it was listed at the start |
| PolicyRuns.EntryIsDerivedOrUntouched | crates/latchgate-api/src/policy.rs:294-307 | after any run an entry has at least one action and exactly the sinks of its actions under the registry of the last successful request for it, both lists in strictly ascending byte order; without one it is untouched |
| PolicyRuns.AllDerivedStays | crates/latchgate-api/src/policy.rs:437-457 | with a fixed registry every request keeps all entries derived and non-empty |
| PolicyRuns.StepIsLocal | crates/latchgate-api/src/policy.rs:269-473 | a request changes nothing at any path apart from what it names and the version |
| PolicyRuns.RunIsLocal | crates/latchgate-api/src/policy.rs:269-473 | the same over runs: other principals, other pairs, other sections and fields stay |
| PolicyRuns.MembersStay | crates/latchgate-api/src/policy.rs:300-307 | every other member of an entry, to any depth, survives grants and revokes unless the entry is removed |
| PolicyRuns.MembersStayLong | crates/latchgate-api/src/policy.rs:300-307 | the same over runs: as at the start, or gone if the entry was ever removed |
| PolicyRuns.VersionCountsChanges | crates/latchgate-api/src/policy.rs:309-309 | the version after a run is the start version advanced once per written grant or revoke, and by nothing else |
| PolicyRuns.VersionIdentifiesAcl | crates/latchgate-core/src/policy_data.rs:53-75 | two documents of one run with the same version have the same ACL section |
| PolicyRuns.LastAllowlistRequestWins | crates/latchgate-api/src/policy_allowlist.rs:144-269 | a pair bypasses approval exactly if the last successful request for it added it, or none was made and it did at the start |
| PolicyRuns.NoEmptyMapEver | crates/latchgate-api/src/policy_allowlist.rs:258-266 | if no action map is empty at the start, none ever is |
| PolicySections.SectionsCommuteExactly | crates/latchgate-api/src/policy_allowlist.rs:91-105 | ACL requests and allowlist requests commute, documents and answers, if and only if the root is not null |
| PolicySections.RunSplits | crates/latchgate-api/src/policy_allowlist.rs:91-269 | on an object root any run equals its ACL requests followed by its allowlist requests |
| PolicyAccess.RevokeNarrowsExactly | definitions/policies/opa/latchgate.rego:235-254 | a revoke gives the principal no new effective action, if and only if it does not empty an entry that keeps additional wildcard actions away |
| PolicyAccess.GrantWidensExactly | definitions/policies/opa/latchgate.rego:235-254 | a grant takes no effective action away if and only if the principal had an entry or the grant covers the wildcard; what it grants is effective |
| OrderedSet.InsertIsUnion | crates/latchgate-api/src/policy.rs:290-292 | ordered insertion keeps the order and adds exactly one element |
| OrderedSet.ListingIsUnique | crates/latchgate-api/src/policy.rs:296-303 | a set has one ascending listing, so serialised lists are canonical |
| OrderedSet.AscendingExactly | crates/latchgate-api/src/policy.rs:296-303 | the stored order is ascending pair by pair |
| Utf8.LessIsByteOrder | crates/latchgate-api/src/policy.rs:296-303 | comparing strings by characters is comparing their UTF-8 bytes, the order of the source's sets |
| AtomicFile.WriteIsAtomic | crates/latchgate-core/src/atomic.rs:16-23 | a write cut after any operation leaves the target as it was; a finished one shows exactly the new contents and leaves no temporary file |
| AtomicFile.FileSystem.AtomicWrite | crates/latchgate-core/src/atomic.rs:16-23 | success is reported exactly if the rename was done; the target is old or new, never in between |
| AtomicFile.FileSystem.WriteAll | crates/latchgate-core/src/atomic.rs:19-19 | pieces are appended in order, stopping when operations fail |
| AtomicFile.NeverPartial | crates/latchgate-core/src/atomic.rs:16-23 | through any history of interrupted writes and power losses the target is the first document or a finished write |
| AtomicFile.PowerLossCanUndoAWrite | crates/latchgate-core/src/atomic.rs:21-22 | after any finished write a power loss can bring back what was visible before |
| AtomicFile.DurableExactly | crates/latchgate-core/src/atomic.rs:16-23 | the last finished write is the visible one in every history, if and only if there is no power loss |
| AtomicFile.SurvivorIsVisible | crates/latchgate-core/src/atomic.rs:16-23 | after any history the target shows the write whose directory version survived; with distinct contents the last finished write is visible if and only if each power loss since kept a directory version showing it |
| PolicyStore.InvariantsSurvive | crates/latchgate-api/src/policy.rs:80-94 | whatever every request preserves holds of the file's document after any history of requests, crashes and power losses |
| PolicyStore.DerivedSinksSurvive | crates/latchgate-api/src/policy.rs:86-94 | derived sinks, non-empty entries and non-empty allowlist maps survive any such history |
| PolicyStore.CrashesAreInvisible | crates/latchgate-api/src/policy.rs:86-94 | without power loss the file is the result of serving exactly the requests whose writes were finished, in order |
| Expiry.Scanner.ScanOnce | crates/latchgate-api/src/expiry.rs:41-96 | one scan refines the scan step: events in listing order, then pruning to the listing; a failed listing changes nothing |
| Expiry.EventExactlyWhenNew | crates/latchgate-api/src/expiry.rs:41-96 | a scan emits one event for an approval exactly if it sees it past a parseable expiry and no earlier such sighting was followed by unbroken listing; the remembered set is within the listing |
| Expiry.OneEventPerStreak | crates/latchgate-api/src/expiry.rs:41-96 | a streak of listings yields exactly one event if the approval was seen expired in it and none otherwise |
| JsonResponse.Builder.WithKey | crates/latchgate-api/src/json_response.rs:57-72 | the new buffer is the printed form of its one member, still open |
| JsonResponse.Builder.EscapeInto | crates/latchgate-core/src/crypto/json.rs:33-48 | appends the escaped text and nothing else |
| JsonResponse.Builder.Field | crates/latchgate-api/src/json_response.rs:75-82 | the buffer stays the printed form of the members, extended by the new pair |
| JsonResponse.Builder.Finish | crates/latchgate-api/src/json_response.rs:111-125 | the body is the printed members closed by a brace |
| JsonResponse.StringRoundTrip | crates/latchgate-core/src/crypto/json.rs:33-48 | an RFC 8259 section 7 parser reads every escaped string back, whatever follows it |
| JsonResponse.RoundTrip | crates/latchgate-api/src/json_response.rs:57-125 | for every chain of keys and values the body parses as one object with exactly those members in order |
| JsonResponse.BodiesInjective | crates/latchgate-api/src/json_response.rs:57-125 | no value can add, drop or merge a member: equal bodies come from equal chains |

## Left out

- The budgets of a lease, which authentication copies unread.
- Cryptography and token decoding: a request carries the answers of lease verification and of the structural, key, signature, method and URI checks of the proof.
- The Redis backend of the replay cache, its connection handling, and the cache's configuration.
- A failing system clock during authentication; each authentication sees one clock value.
- Throttle.WarnThrottle.ShouldWarn: each call is atomic; concurrent callers that race on opening a window are not modelled.
- ReplayThreads.CounterIsExact: plain equality needs right stores; for all other runs `ReplayThreads.CounterLaw` states the equation as 64-bit words, with its exact condition.
- Approval creation, listing, polling and detail views; the payload and request-hash check at execution; the forensics purge is one kind of store loss.
- ApprovalGate.Gate.ApproveCall: models one call at a time; its interleavings with other calls are those of the machine in `Approvals`. Learn-path relativization and domain validation are inputs.
- Log lines, metrics, audit events, HTTP status mapping, operator authentication, rate limits and policy reload.
- Policy requests are served one after the other: the source takes no lock between reading and writing the file, and lost updates between concurrent requests are not modelled.
- PolicyAccess.RevokeNarrowsExactly: of the policy evaluation only the choice between own and wildcard actions is modelled, over array-valued action lists; scopes, budgets, risk and sinks are not.
- Finding the policy file, unreadable files, and the JSON serialiser of the document, for which any pair of inverse functions is taken. Repeated keys in a file on disk are not modelled.
- AtomicFile.NeverPartial: assumes the target exists, as the policy endpoints require, and that the temporary name differs from it; other processes writing the directory are not modelled.
- Configuration, server life cycle, transport, command line, health, metrics, action discovery and file-system root validation: wide rather than deep.
