# guided-ssh: a Dafny model of its stateful cores

guided-ssh is an SSH certificate authority. It issues short-lived certificates to users and CI
pipelines, hands hosts the access lists that decide who may log in, and runs an agent on every host.
This project models the parts whose guarantees hold over whole runs rather than single calls, and
proves those guarantees for all inputs, all interleavings and all reachable states.

`dafny verify dfyconfig.toml` checks everything. No file depends on anything outside this directory.

## Layout

| file | what it models |
|---|---|
| RateLimiter.dfy, Admission.dfy, FailureBudget.dfy, IdleEviction.dfy | the token-bucket limiter: window bounds, exactly which requests are admitted, overlapping requests of one client, eviction |
| Json.dfy, Lines.dfy, Spool.dfy, SpoolProtocol.dfy | the session spool: JSON lines, framing, appenders against the flusher |
| CAConcurrency.dfy, CALifecycle.dfy | CA keys: signer cache under concurrency, key states over sequential runs |
| Reconcile.dfy, GrantKeys.dfy | declarative reconciliation of access and CI grants, audit replay, reconciliation keys |
| Glob.dfy, CIMatching.dfy, HostAcl.dfy | CI authorisation: globs, the SQL pre-filter, principals, host access lists |
| PrincipalsCache.dfy, PinDialer.dfy | caches with deadlines: principals on the host, the pin self-dial |
| Lifetimes.dfy, Renewal.dfy | certificate lifetimes under int64 arithmetic, the two-thirds renewal rule |
| Offboarding.dfy, OffboardingConcurrency.dfy | logins and directory synchronisation, seen through the host access list: sequential runs, and interleaved store calls |

Protocols with several actors are step functions over an explicit state, and what a run has
taken in, delivered or answered is read off its steps: each section under a mutex and
each call to the database, the file system or the network is one atomic step, and a run is any sequence of
enabled steps. Code that changes an object step by step is a class, proved against the same functions.
Clock readings, generated keys and answers of other systems are arguments; `works` arguments say which
store calls fail.

## What the proofs found

- The window bounds of the limiter are tight: while a key is not evicted and its readings are in order, a request is
  refused exactly if admitting it, or one more failure, would exceed a budget in some window that ends now
  (`Admission.AdmittedExactly`).
- The request bound of the limiter needs no monotone clock. `now` is read before the mutex is taken, so
  readings can arrive out of order; the bound holds anyway. A recorded failure finds its token exactly if the
  tokens left by its request are not outrun by an earlier clock reading
  (`RecordedFailureIsDebitedExactly`); two overlapping requests can bring that about (`LateReadingEscapes`).
- `allow` only looks at the failure budget, so requests in flight at the same time share a token. With at most
  c failing requests of a client in flight its failures are bounded by c times the budget, and c - 1 more
  (`FailureBudget.FailuresWithinSharedBudget`); an additional term would not be enough (`InFlightMultiplies`).
- `internal/agentd/daemon.go` promises renewal "once 2/3 of its validity has elapsed". Checks that are less
  than a third of the lifetime apart are not always enough: with 90 s of validity and 29.5 s between checks
  the truncation to whole seconds leaves a gap. `Renewal.Safe` is the exact condition, for any number of
  renewals that may fail in a row; from 92 s on, whole seconds, a third for all of them together is enough. The
  defaults survive 2878 failures in a row.
- A `RetireKey` that fails after its store write (the audit entry is written before the cache is
  invalidated) can leave the key signing. A key that is no longer active can sign for a later `Issue` exactly if
  it is cached, or held by an `Issue` that is about to cache it (`CAConcurrency.LateSignatureExactly`). A `Rotate` that listed a key before it was retired sets it back to
  "retiring". Over a run key states move forward exactly when no `Rotate` demotes a key that was retired
  after that `Rotate` had listed it (`CAConcurrency.StatesMoveForwardExactly`).
- A successful `EnsureCAKeys` does not mean that certificates can be issued: it creates a key only where there
  is none that is not retired, and signing needs an active one (`CALifecycle.RetiredSuccessor`).
- The `LIKE` pre-filter of `MatchCIGrants` loses exactly the covering rows that are written with a
  backslash above the project itself (for project paths without percent signs), because `LIKE` reads the
  backslash as an escape. For paths without a backslash it loses nothing, even where a stored path contains
  `_` or `%`.
- A spool line of 1 MiB or more would end the scan and lose everything behind it; the caps on the request
  bodies rule such lines out.
- The principals cache serves answers up to the larger of `minFresh` and `CacheTTL`; with a `CacheTTL` below
  ten seconds the former decides.
- A login that has read a user as active and has a changed name or address to store writes `active = true`
  back after a pass has deactivated the user, and restores the groups. A user who is inactive, and whom no
  pass sees active, stays inactive exactly as long as no login that was pending at that point writes
  (`OffboardingConcurrency.InactiveExactly`).
- Users and CI grants share one access list, and nothing keeps a user name from starting with "ci:". The two
  kinds of access are separate exactly as far as names and addresses do not have that form.
- A user who was already inactive keeps the group memberships through a synchronisation (a failed
  deactivation leaves this state behind), but contributes no principal.

## Model

| member | source | states |
|---|---|---|
| RateLimiter.WithdrawnWithinBudget | internal/api/ratelimit.go:75-155 | in every run, for a key that is not evicted, the tokens withdrawn at clock readings in [from, to] number at most burst + perMinute * (to - from), for both budgets and any order of clock readings |
| RateLimiter.PotentialStep | internal/api/ratelimit.go:136-155 | every call keeps withdrawals + tokens - perMinute * last below its value at the start of the window |
| RateLimiter.RefillKeepsPotential | internal/api/ratelimit.go:75-82 | a lazy refill never raises the potential, even if the clock went back |
| RateLimiter.WithdrawalKeepsPotential | internal/api/ratelimit.go:85-91 | a withdrawal inside the window keeps the potential and stays within the budget |
| RateLimiter.BucketStep | internal/api/ratelimit.go:136-155 | what one call does to each bucket: allow refills both and debits only requests, recordFailure debits only failures |
| RateLimiter.RecordedFailureIsDebited | internal/api/ratelimit.go:114-155 | while the key's own clock readings arrive in order, a failure recorded before the key's next allow always finds a token |
| RateLimiter.RecordedFailureIsDebitedExactly | internal/api/ratelimit.go:75-155 | for any clock readings, a failure recorded before the key's next allow finds a token exactly if the tokens left then, refilled or drained by the time between the two readings, are at least one |
| RateLimiter.LateReadingEscapes | internal/api/ratelimit.go:136-155 | a concrete run of two overlapping requests in which a failure, recorded at once, is timed before the last refill and finds none |
| RateLimiter.FailuresWithinBudget | internal/api/ratelimit.go:114-155 | hence, if requests of the client do not overlap, its 401/403 answers in a window number at most failureBurst + failuresPerMinute * length |
| Admission.AdmittedExactly | internal/api/ratelimit.go:71-145 | for a key that is not evicted and whose readings are in order, a request is admitted exactly if, for both kinds and every window that ends now, the tokens withdrawn in it and one more are at most burst + perMinute * length |
| Admission.DebitedExactly | internal/api/ratelimit.go:148-155 | a recorded failure takes a token exactly if that holds for the failure budget alone |
| Admission.Serve | internal/api/ratelimit.go:95-170 | a new limiter fed with any events answers the requests of such a key in this way |
| FailureBudget.FailuresWithinSharedBudget | internal/api/ratelimit.go:114-155 | with at most c failing requests of the client in flight at any time, at most c times that, and c - 1 more |
| FailureBudget.AttemptsPerWithdrawal | internal/api/ratelimit.go:114-155 | the failures in a window are at most c for each token withdrawn in it, and c - 1 more |
| FailureBudget.EscapeHasCause | internal/api/ratelimit.go:139-155 | a failure that finds no token was preceded by another failure that took one while its request was in flight |
| FailureBudget.InFlightMultiplies | internal/api/ratelimit.go:114-155 | a concrete run with three requests in flight that exceeds the budget by more than three |
| RateLimiter.Limiter.constructor | internal/api/ratelimit.go:95-110 | rates and bursts that are not positive are replaced by the defaults, one by one |
| RateLimiter.Limiter.Evict | internal/api/ratelimit.go:174-186 | drops all idle keys, and a key that is not idle only while dropping them leaves no room; afterwards there is room |
| RateLimiter.Limiter.FindOrAdd | internal/api/ratelimit.go:159-169 | the table never holds more than maxClients keys |
| RateLimiter.Limiter.Allow | internal/api/ratelimit.go:136-145 | answer and new table are those of one call of the specification, with a legal set of evicted keys |
| RateLimiter.Limiter.RecordFailure | internal/api/ratelimit.go:148-155 | the same for a recorded failure |
| IdleEviction.IdleEvictionUnobservable | internal/api/ratelimit.go:136-186 | if clock readings are at most a skew behind those used before, a limiter that evicts idle keys answers every call of every run as one that never evicts, provided both budgets refill within the TTL less the longest handler time and three times the skew |
| IdleEviction.CallAgrees | internal/api/ratelimit.go:136-186 | the simulation step: equal answers, and buckets that no later call can tell apart |
| IdleEviction.WithdrawnWithinBudgetDespiteIdleEviction | internal/api/ratelimit.go:48-186 | the window bound also holds across idle evictions of the key itself |
| IdleEviction.DefaultsRefillInTime | internal/api/ratelimit.go:35-50 | the default limits meet the refill condition exactly if handler time and three times the skew are at most four minutes |
| Json.ReadWrittenObject | internal/agentd/session.go:201-212 | a flat JSON object is read back member by member, whatever text follows it |
| Json.ObjectHasNoControls | internal/agentd/session.go:201-212 | a marshalled object contains no line feed nor other control character |
| Lines.ScanBehindLines | internal/agentd/session.go:183-198 | scanning distributes over concatenation behind whole lines that fit the buffer |
| Spool.EventRoundTrip | internal/agentd/session.go:183-212 | every session event survives marshalling and unmarshalling |
| Spool.Parse | internal/agentd/session.go:183-198 | the scanner loop returns the readable events of the lines up to the first overlong one |
| Spool.MustMarshalLines | internal/agentd/session.go:201-212 | the buffer holds the lines of the events in order |
| Spool.ParseBehindEvents | internal/agentd/session.go:168-198 | parsing requeued lines in front of any file gives the requeued events, then the events of the file |
| Spool.FramingRoundTrip | internal/agentd/session.go:183-212 | parsing written events gives back the prefix before the first overlong line, so all of them exactly if every line fits |
| Spool.AcceptedEventsFit | internal/agentd/session.go:41-109 | events decoded from request bodies within their caps always fit, even if decoding tripled every byte and marshalling escapes each one |
| SpoolProtocol.EveryRunConserves | internal/agentd/session.go:113-180 | in every state of every interleaving, the batches acknowledged by the server so far ++ in flight ++ not yet requeued ++ file are the events of the initial file and of the appends that were not dropped, in order |
| SpoolProtocol.StepConserves | internal/agentd/session.go:113-180 | every atomic step of appender and flusher keeps the framing of the file, and what it delivers and leaves behind is what was there and what it takes in, in order |
| SpoolProtocol.FailedBatchIsPutBack | internal/agentd/session.go:156-180 | after a failed send nothing is gone, and the requeue puts the batch in front of whatever the file holds by then |
| SpoolProtocol.LoneFlush | internal/agentd/session.go:136-165 | without appends in between the atomic steps of a flush send the first batch and keep the rest; a failed flush leaves the file byte for byte |
| SpoolProtocol.BatchedHolds | internal/agentd/session.go:150-159 | splitting off a batch of at most 500 keeps all events in order |
| SpoolProtocol.EmptySpoolDeliveredAll | internal/agentd/session.go:136-165 | once the flusher is idle and the file empty, the acknowledged batches are all events of the initial file and the appends, once and in order |
| SpoolProtocol.SpoolFile.Append | internal/agentd/session.go:113-131 | appends one line, or drops the event if the file is over its limit |
| SpoolProtocol.SpoolFile.Requeue | internal/agentd/session.go:168-180 | the lines go in front of the file |
| SpoolProtocol.SpoolFile.Flush | internal/agentd/session.go:136-165 | a failed flush restores the file byte for byte; a successful one removes exactly the batch sent |
| CAConcurrency.NoSignatureAfterRetirement | internal/ca/ca.go:279-387 | once a RetireKey(k) has returned success, no Issue of the process that starts later signs with k, in any interleaving and whatever other replicas do short of reactivating keys |
| CAConcurrency.NoSignatureAfterRotation | internal/ca/ca.go:252-387 | once a Rotate has returned success, no Issue that starts later signs with a key of the purpose that was active when it listed them, and there is a newer key |
| CAConcurrency.OutOfServiceNeverSigns | internal/ca/ca.go:188-387 | the same for every key recorded as out of service, from the moment it is recorded |
| CAConcurrency.SignerWasNewest | internal/ca/ca.go:348-372 | whatever an Issue signs with was the newest active key of its purpose at some moment of the run |
| CAConcurrency.LoneIssue | internal/ca/ca.go:348-372 | without overlap an Issue signs with the cached key, or else with the newest active one, which it caches; it fails exactly if there is neither |
| CAConcurrency.LoneRotate | internal/ca/ca.go:252-275 | without overlap a Rotate adds an active key, makes exactly the active keys of the purpose retiring and drops the cached signer |
| CAConcurrency.LoneRetire | internal/ca/ca.go:279-293 | without overlap a RetireKey retires this key, changes no other and drops the cached signer of its purpose |
| CAConcurrency.StepKeepsInv | internal/ca/ca.go:252-387 | the invariant behind it: no key out of service is active, cached or about to be cached |
| CAConcurrency.LateSignatureExactly | internal/ca/ca.go:252-387 | a key that is no longer active is the signer of some later Issue in some continuation of the run exactly if it is cached or an Issue is about to cache it |
| CAConcurrency.StaysOutOfReach | internal/ca/ca.go:348-387 | a key that is neither active nor cached nor about to be stays so in every step, and no Issue takes it as its signer any more |
| CAConcurrency.OutOfServiceDoesNotLinger | internal/ca/ca.go:252-293 | success of RetireKey or Rotate is one way to meet that condition |
| CAConcurrency.FailedRetireKeepsSigning | internal/ca/ca.go:279-293 | a concrete run in which a RetireKey that failed half-way leaves the key signing |
| CAConcurrency.OverlappingRotateRevivesKey | internal/ca/ca.go:252-293 | a concrete run in which an overlapping Rotate moves a retired key back to retiring |
| CAConcurrency.StatesMoveForwardExactly | internal/ca/ca.go:252-293 | if other replicas move no state back, states move forward in every step of a run exactly when no Rotate demotes a key that was retired while that Rotate had it listed and not yet demoted |
| CAConcurrency.AdvanceMovesForwardExactly | internal/ca/ca.go:265-272 | one step moves states forward unless it is the demotion of a key that is retired by then |
| CAConcurrency.NoOverlapLostExactly | internal/ca/ca.go:257-280 | a retired key gets into a pending list exactly when a step retires a key that some Rotate has pending |
| CAConcurrency.OnlyRetireKeyRetires | internal/ca/ca.go:279-283 | in this process only the store write of RetireKey retires a key |
| CAConcurrency.ForwardWithoutOverlap | internal/ca/ca.go:252-293 | without such an overlap states only move forward between any two moments of a run |
| CALifecycle.Execute | internal/ca/ca.go:113-387 | any sequence of bootstraps, adoptions, rotations, retirements, issuances and restarts in either mode, failing or not, is a run |
| CALifecycle.Perform | internal/ca/ca.go:113-387 | one operation: only RetireKey retires, and only its key; only Issue issues, with a key of the certificate's type |
| CALifecycle.IssuedStaysVerifiable | internal/ca/ca.go:188-312 | in every run a certificate's key has its type and is in the bundle at every later moment, unless that very key was passed to a RetireKey of the run by then |
| CALifecycle.RunsMoveForward | internal/store/ca_keys.go:52-123 | over any stretch of a run states only move active, retiring, retired; rows keep purpose and public key; the keys that get retired are among those passed to RetireKey in that stretch |
| CALifecycle.CA.EnsureCAKeys | internal/ca/ca.go:165-182 | after the bootstrap both SSH purposes have a key that is not retired, and an active one exactly if there was one before or no such key at all; nothing existing changes; refused in self-managed mode |
| CALifecycle.RetiredSuccessor | internal/ca/ca.go:252-372 | after rotating a purpose that had a key and retiring the new one, a successful bootstrap is followed by an Issue that fails |
| CALifecycle.CA.CreateKey | internal/ca/ca.go:316-340 | adds one active key and changes no other, or nothing; refused in self-managed mode |
| CALifecycle.CA.Rotate | internal/ca/ca.go:252-275 | the new key is the only active one of its purpose, the cached signer is dropped, and only active keys of the purpose change; refused in self-managed mode |
| CALifecycle.DemoteAll | internal/ca/ca.go:265-272 | the demotion loop, also when a store call in it fails |
| CALifecycle.CA.RetireKey | internal/ca/ca.go:279-293 | the given key becomes retired and no other row changes; in managed mode its signer is dropped |
| CALifecycle.CA.AdoptCAKey | internal/store/ca_keys.go:81-123 | adopting a known key changes nothing, so never promotes it; a retired one is refused; a new one supersedes the active ones of its purpose and changes no other row |
| CALifecycle.CA.AdoptExternalKeys | internal/ca/ca.go:113-160 | on success the signers of both SSH purposes are the mounted keys |
| CALifecycle.CA.ActiveSigner | internal/ca/ca.go:348-372 | the cached signer, or in managed mode the newest active key; fails exactly if there is neither |
| CALifecycle.CA.InvalidateSigner | internal/ca/ca.go:380-387 | drops the cached signer, except in self-managed mode |
| CALifecycle.CA.Issue | internal/ca/ca.go:188-245 | succeeds exactly if there is a signer and the store works; every certificate is recorded with a key of its own purpose that is in the bundle or was passed to RetireKey |
| CALifecycle.CA.Bundle | internal/ca/ca.go:298-312 | the public keys of the purpose's keys that are not retired, newest first |
| CALifecycle.BundleExactly | internal/store/ca_keys.go:44-48 | a key is listed exactly when it has the purpose and is not retired |
| Reconcile.GrantStore.Apply | internal/store/grants.go:222-277 | success: exactly one row per spec with its contents, the oldest row of each condition kept, Created+Updated+Unchanged = specs, Updated+Unchanged+Deleted = rows before, one audit event per change behind the old trail, each by the acting user and fitting the table at that point (created for a new id, updated or deleted for an existing one), exactly the groups of the specs without a row added, so that the groups of all specs exist; failure: database untouched, and only for unacceptable specs or a failing statement |
| Reconcile.EveryEventFits | internal/store/grants.go:23-172 | in an audited trail every event creates a row that is not there, or updates or deletes one that is, a deletion with its last contents |
| Reconcile.AllGroupsExist | internal/store/grants.go:297-312 | after an apply every spec's group exists, and so does every row's |
| Reconcile.GrantStore.AddGroup | internal/store/groups.go:10-22 | a new group appears and nothing else changes; one that exists is refused |
| Reconcile.ReconcileSpecs | internal/store/ci_grants.go:295-331 | the loop over the specs, for either table: validation, duplicate keys, progress and counters |
| Reconcile.ApplySpec | internal/store/ci_grants.go:351-388 | creates a missing grant; otherwise deletes duplicates and updates the oldest row only if its terms differ; counters and audit grow by what changed |
| Reconcile.SpecMakesProgress | internal/store/grants.go:297-339 | after a spec its condition has exactly one row with its contents and rows of other keys are untouched |
| Reconcile.DeleteLeftovers | internal/store/grants.go:263-270 | the rows nobody declares are deleted, in any order |
| Reconcile.GrantsByKey | internal/store/grants.go:282-292 | groups rows by key, oldest first, losing none |
| Reconcile.SecondApplyIsNoop | internal/store/grants.go:222-277 | applying the same specs again changes nothing, audits nothing and counts everything as unchanged |
| Reconcile.ChangesAudited | internal/store/grants.go:23-172 | create, update and delete keep the table equal to the replay of its audit trail |
| Reconcile.GrantStore.Create | internal/store/ci_grants.go:124-153 | one row and one creation event by the acting user, or nothing; refused if the group of the grant does not exist |
| Reconcile.GrantStore.Update | internal/store/ci_grants.go:188-219 | the identifying part of the stored row stays; one update event by the acting user with the stored row, or nothing |
| Reconcile.GrantStore.Delete | internal/store/ci_grants.go:222-241 | removes the row and audits its last contents as deleted by the acting user, or nothing |
| GrantKeys.GrantKeyExact | internal/store/grants.go:205-214 | two access grants share a key exactly when issuer, group and selector are equal, if one of them is free of NUL |
| GrantKeys.CIGrantKeyExact | internal/store/ci_grants.go:256-267 | the same for project, patterns, protected flag and selector of CI grants |
| GrantKeys.CanonicalInjective | internal/store/grants.go:206-213 | the sorted JSON of a selector determines the selector |
| GrantKeys.NulWouldCollide | internal/store/grants.go:205-214 | without that freedom two different grants can share a key |
| GrantKeys.NewAccessGrants | internal/store/grants.go:205-361 | the access grants are an instance of the reconciliation: their keys are lawful, each refers to its group, and an update keeps issuer and group |
| GrantKeys.NewCIGrants | internal/store/ci_grants.go:256-286 | so are the CI grants, without groups; an update keeps the project path |
| Glob.WildcardMatch | internal/store/ci_grants.go:85-102 | the greedy matcher decides the declarative glob relation for every pattern and value |
| Glob.MatchesIsAnchored | internal/store/ci_grants.go:85-102 | the glob relation is the same as the parts between the stars in order, the first and last anchored |
| Glob.GreedyStep | internal/store/ci_grants.go:94-100 | taking the first occurrence of the next part loses no match |
| CIMatching.MatchesJob | internal/store/ci_grants.go:62-76 | a grant matches a job exactly when its path is the project or a namespace of it, the ref is protected if it asks for that, and the ref and environment patterns are empty or match |
| CIMatching.MatchCIGrants | internal/store/ci_grants.go:170-185 | the result shows, in table order and once each, exactly the rows that the query selects and whose path, protection, ref and environment conditions hold |
| CIMatching.PrefilterIsLossless | internal/store/ci_grants.go:170-185 | for project paths without backslash this equals filtering the whole table, wildcards in stored paths notwithstanding |
| CIMatching.PrefilterLosesExactly | internal/store/ci_grants.go:171-174 | for project paths without percent signs a covering row is selected exactly if it is the project itself or has no backslash |
| CIMatching.BackslashRowLost | internal/store/ci_grants.go:171-174 | a concrete covering row with a backslash that the query does not select |
| CIMatching.PrefilterLosesExactlyLost | internal/store/ci_grants.go:170-185 | so exactly those rows are missing from the result |
| CIMatching.CIPrincipals | internal/ca/keyid.go:24-34 | the principals are the project and its namespaces, nearest first |
| CIMatching.NamespacesGetShorter | internal/ca/keyid.go:24-34 | each namespace is shorter than those before it, so the order is nearest first and nothing is listed twice |
| CIMatching.PrincipalsAgreeWithMatching | internal/ca/keyid.go:24-34 | for nonempty grant paths projectMatches holds exactly when "ci:" + path is among the principals |
| CIMatching.EmptyGrantPath | internal/store/ci_grants.go:79-81 | for the empty grant path they differ exactly on projects that start with a slash |
| HostAcl.ListAuthorizedPrincipals | internal/store/enrollment.go:183-239 | exactly the nonempty names and addresses of active members of a group with a grant for the local user whose selector is part of the host tags, and "ci:" + path of such CI grants, without duplicates |
| HostAcl.MoreTagsReachMore | internal/store/enrollment.go:183-239 | a host with more tags lists whatever it listed before |
| HostAcl.CIAccessExactly | internal/store/enrollment.go:219-238 | the CI part meets a CI certificate's principals exactly when some CI grant covers the project, names the local user and has a selector within the host tags |
| HostAcl.AccessExactly | internal/store/enrollment.go:183-239 | the whole list meets the principals of any certificate exactly when a contributing user shares a nonempty name or address with it, or it carries the principal of a reaching CI grant |
| HostAcl.UserAccessExactly | internal/auth/verifier.go:46-52 | for a user certificate without a name of the form "ci:..." only the shared name counts |
| HostAcl.CIWholeAccessExactly | internal/store/enrollment.go:183-239 | for a CI certificate the covering grant counts, and users only if one of them has a name of the form "ci:..." |
| HostAcl.NamesCollide | internal/auth/verifier.go:46-52 | a user name that is the principal of a CI grant meets the list without any user contributing |
| HostAcl.InactiveContributesNothing | internal/store/enrollment.go:184-193 | the user part of the list is the same without an inactive user |
| PrincipalsCache.EveryServedListIsGenuine | internal/agentd/daemon.go:188-211 | in every interleaving of lookups, API failures, file errors and restarts each served list is one the API returned for that user in an earlier step, stamped less than max(minFresh, CacheTTL) before it was chosen |
| PrincipalsCache.StepKeepsInv | internal/agentd/daemon.go:386-412 | cache, cache file and pending writes hold only such answers, across restarts |
| PrincipalsCache.EveryLookupHasHistory | internal/agentd/daemon.go:188-211 | every served list is the answer to this very lookup, or the entry it found, then younger than minFresh, or the entry it found, younger than CacheTTL after its call had failed; every lookup denied found no entry that young and its call had failed |
| PrincipalsCache.LookupFailsExactly | internal/agentd/daemon.go:188-211 | in sequential runs a lookup fails exactly when the API fails and no answer is younger than its limit |
| PrincipalsCache.Agent.Principals | internal/agentd/daemon.go:188-211 | one lookup: result, new cache and cache file |
| PrincipalsCache.LoneLookup | internal/agentd/daemon.go:188-211 | the atomic steps of a lookup without overlap come to the sequential one, cache file included, and what was written survives a restart |
| PinDialer.SingleFlight | internal/api/pinprovider.go:172-275 | at most one self-dial is in progress |
| PinDialer.PinIsLastRead | internal/api/pinprovider.go:262-275 | the cached pin is the one read by the last dial that succeeded, so a new pin replaces an older one and a failure keeps it |
| PinDialer.StatusAnswerIsFresh | internal/api/pinprovider.go:210-249 | what a Status call answers was the cached pin at a moment of the call, at which the last dial was less than the refresh interval ago, or the backoff if there is no pin |
| PinDialer.ScheduledRefreshDials | internal/api/pinprovider.go:172-190 | a scheduled refresh always dials itself, due or not |
| PinDialer.RequestDialsAreDue | internal/api/pinprovider.go:210-249 | a request-driven dial starts only when every earlier dial ended at least the refresh interval ago, or the backoff if no pin was read yet |
| PinDialer.StatusNeverLosesThePin | internal/api/pinprovider.go:210-275 | once a pin was read, no Status call that starts later answers that there is none |
| PinDialer.RequestLoadIsBounded | internal/api/pinprovider.go:210-275 | any number of callers cause at most one request-driven dial per waiting time |
| PinDialer.StepKeepsInv | internal/api/pinprovider.go:172-275 | the invariant over both mutexes behind these results |
| Lifetimes.SignUser | internal/api/sign.go:126-172 | under wrapping int64 nanoseconds every user certificate lives more than 0 and at most 16 h, the true largest grant maximum and the requested seconds; without wrap-around the exact lifetime, which survives truncation, and exactly which requests are refused; key ID and principals are those given, the extensions the five defaults |
| Lifetimes.SignCI | internal/api/sign_ci.go:75-148 | the same with 1 h and permit-pty only, and no certificate outlives a set token expiry; without wrap-around it has no whole second of validity exactly when the expiry falls into the second in which the validity starts |
| Lifetimes.MaxGrantValidity | internal/api/sign.go:188-196 | never above the true maximum of the grants, and equal to it if nothing wraps |
| Lifetimes.TruncationKeepsLimit | internal/ca/signer.go:65-66 | the whole-second fields never exceed a maximum in whole seconds |
| Lifetimes.TruncationLosesLittle | internal/ca/signer.go:65-66 | truncation takes less than a second, so no certificate of a second or more loses all of its validity |
| Lifetimes.WrapShortens | internal/store/ci_grants.go:48-50 | a wrapped duration of positive seconds is never longer than the true one |
| Renewal.AlwaysValidExactlyWhenSafe | internal/agentd/daemon.go:215-256 | the host certificate on disk is valid at every moment of every run in which at most a given number of renewals fail in a row exactly when the configuration is Safe for that number |
| Renewal.SafeSuffices | internal/api/enroll.go:139-158 | the sufficient half, for every run |
| Renewal.MustLast | internal/agentd/daemon.go:215-235 | the necessary half: behind any run an outage of that many renewals can follow, and the certificate must last until the check after it |
| Renewal.ThreeSpansPerLifetime | internal/agentd/daemon.go:238-256 | whole-second validities from 92 s on are safe if the failing checks and the one after them take less than a third of the validity |
| Renewal.NinetySecondsNotEnough | internal/agentd/daemon.go:238-256 | 90 s with 29.5 s between checks is not safe even if every renewal works |
| Renewal.DefaultsSurvive | internal/agentd/config.go:25 | thirty days checked every five minutes are safe for exactly up to 2878 failed renewals in a row |
| Renewal.RenewPointInside | internal/agentd/daemon.go:252-255 | for lifetimes below half the int64 range the renewal point is two thirds into the validity |
| Renewal.RenewPointWraps | internal/agentd/daemon.go:252-255 | from there on the doubling wraps and the certificate counts as due at once |
| Renewal.IssuedShape | internal/api/enroll.go:147-155 | where an issued host certificate starts and how long it lives after backdating and truncation |
| Offboarding.OffboardedStaysOut | internal/auth/sync.go:74-121 | after a successful pass a missing or disabled user is refused by every login and contributes no principal on any host until a pass sees the user active again |
| Offboarding.InactiveStaysInactive | internal/auth/mapper.go:46-82 | no run of logins and passes revives an inactive user who stays gone |
| Offboarding.Directory.EnsureUser | internal/auth/mapper.go:46-82 | a login touches only its own user; refused exactly for a known inactive user, who is left as is; succeeds exactly if otherwise the store works and no group is claimed twice, and then profile and groups are those of the claims |
| Offboarding.Directory.EnsureGroups | internal/auth/mapper.go:85-100 | resolves every name in order and creates only named groups; succeeds exactly if the store works for each of them |
| Offboarding.Directory.SyncOnce | internal/auth/sync.go:74-106 | succeeds exactly if the store works for every user of the issuer and the normalised group names of those who stay differ; then users who are gone are inactive and without groups, others have directory profile and groups, and the audit trail of each user grows by an event exactly if the active status changed; on error only a part is done, and nobody gone is revived; users of other issuers are untouched |
| Offboarding.Directory.Deactivate | internal/auth/sync.go:109-121 | marks inactive, revokes all groups and audits it; a user already inactive is left alone, groups included |
| Offboarding.Directory.Reconcile | internal/auth/sync.go:125-155 | profile, active status and normalised groups of the directory, a reactivation audited, and exactly when this succeeds |
| OffboardingConcurrency.InactiveExactly | internal/auth/mapper.go:46-82 | in every interleaving of store calls an inactive user whom no pass sees active stays inactive exactly when no login that was pending then writes the profile it had read |
| OffboardingConcurrency.LoneLogin | internal/auth/mapper.go:46-82 | the atomic steps of a login without overlap come to what a sequential login does, and it is done exactly if the user is not inactive and no group is claimed twice |
| OffboardingConcurrency.LoneTaking | internal/auth/sync.go:86-155 | those of a pass that takes a user come to the profile and groups of a sequential synchronisation |
| OffboardingConcurrency.OffboardedUnlessPending | internal/auth/sync.go:74-121 | a successful pass has seen or made every listed user who is gone inactive at a moment; if no login is pending at that moment the user stays out, and later logins are refused |
| OffboardingConcurrency.TakenWasInactive | internal/auth/sync.go:86-121 | every user a pass has dealt with and who is gone was inactive at some moment of it, however logins interleave |
| OffboardingConcurrency.StepRevivesExactly | internal/store/users.go:59-73 | apart from a pass that sees the user active, only the write of a login that read the user as active makes an inactive user active |
| OffboardingConcurrency.NoNewPendingLogin | internal/auth/mapper.go:61-64 | while a user is inactive no login gets past its read |
| OffboardingConcurrency.PendingLoginRevives | internal/auth/mapper.go:65-78 | a concrete run in which a user is active again, groups included, after a successful pass that found the user missing |

## Left out

- HTTP handlers, routing, request decoding, command lines and configuration files: plumbing around the modelled cores.
- Cryptography, SSH and X.509 encoding, TLS and token verification: keys, signatures and verified claims are opaque values.
- PostgreSQL beyond the meaning of the cited statements: tables are maps, transactions are copy and commit, and a failing statement is an input. Rows are numbered in order of creation, which stands for ORDER BY created_at, id.
- Floating point: limiter tokens are reals, so rounding of float64 is not modelled.
- Crashes and file errors in the middle of a flush, torn writes of the spool, and replicas racing on the grant tables.
- Deletion of groups by cascade, which removes access grants without audit events.
- Arbitrary eviction of limiter entries voids the per-key bound; the bound is stated for keys that are not evicted, or evicted only when idle.
- recordAuth and takeSerial (correlation of logins with sessions): a small map of lists without a property over runs.
- Bootstrap of the mTLS CA, mTLS rotation and enrollment tokens: rotation uses the arithmetic of Renewal.RenewPointInside, the rest would only add easy members.
- Spool.EventRoundTrip: the reader accepts the compact form the agent writes (no white space between tokens, no surrogate escapes, strings and integers only), while Go's decoder accepts more. The timestamp is kept as its text.
- HostAcl.ListAuthorizedPrincipals: does not state the order of the list; the SQL orders by name, and no caller relies on it.
- CIMatching.PrefilterLosesExactly: stated for project paths without percent signs; with one, a path that contains a backslash may or may not be selected.
- Renewal.AlwaysValidExactlyWhenSafe: a renewal is instantaneous, so the time between the check and the written file is not modelled; the first check works, as enrollment does, and the longest tolerated outage is less than 292 years.
- PrincipalsCache.EveryServedListIsGenuine: the age is measured when the list is chosen; how long the answer then takes to write the cache file is not bounded by the code.
- CAConcurrency.NoSignatureAfterRetirement: managed mode of one process; EnsureCAKeys runs before requests are served and is modelled in CALifecycle only.
- CAConcurrency.StatesMoveForwardExactly: other replicas are taken to move no state back; a replica whose own Rotate overlaps with a RetireKey does, as OverlappingRotateRevivesKey shows for one process.
- Changes of users by an administrator, and deletion of users, are not steps of the offboarding models.
