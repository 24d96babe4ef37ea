# Verified models of the API template's protocols

A Dafny model of the parts of this Go API template whose guarantees depend on step order: the response cache
with tag-version invalidation, TOTP secret sealing and key rotation, the TOTP and backup-code state machine, the
notification dispatcher, the tenant validation cache, the in-memory document store, template marker stripping, the
route validator with its handler chain, the fixed-window rate limiter and the request-id sampling key.

`dafny verify dfyconfig.toml` checks everything. Each component is one module:

| module | component |
|---|---|
| `ResponseCache`, `CacheTags`, `ResponseCapture` | response cache: protocol between processes, tags and tokens, response buffering |
| `SecretCipher`, `TotpKeyring`, `Rotation` | TOTP secrets at rest: ciphertext format, key settings, batch and lazy rotation |
| `Mfa`, `BackupCodes` | SQL statements over users, TOTP secrets and backup codes, the in-memory repository; overlapping replacement transactions |
| `Dispatcher` | bounded asynchronous notifications |
| `TtlLru`, `TenantCache`, `TenantLookup` | cache segment, two-segment cache, lookups through it |
| `DocumentStore` | in-memory documents and staged transactions |
| `Markers` | template marker blocks |
| `RoutePolicies` | policy metadata, route validator, handler chain |
| `RateLimit`, `SampleKey` | fixed-window limiter, access-log sampling key |
| `Strings`, `Wrappers` | text helpers, `Option` and `Result` |

Concurrent components (`ResponseCache`, `Dispatcher`, `TenantLookup`, `BackupCodes`) are step machines: a `Step` datatype,
`Enabled`, `Apply` and `Run`, with theorems about every valid run from the initial state. Objects that the program
updates in place are classes whose methods are proved against functions on their contents; the laws are proved
about those functions.

## Reading the main results

- **Response cache.** Readers fetch tag versions before the handler reads data and writers commit before they bump.
  From that order alone, `EntriesIncludeCountedWrites` holds in every interleaving of any number of processes, and
  `HitsAreFresh` bounds staleness by the token lifetime plus `lag`, the time that may pass between fetching versions
  and storing the token (the program does not bound it; 0 makes fetch and store one instant).
- **Rotation.** `Rotate` runs against a `World` that supplies, at every repository call, the writes of everybody
  else, whether the call fails (before or after taking effect), the nonce and cancellation. Its contract therefore
  covers every interleaving.
- **Backup codes.** Replacing a set is a delete and an insert in one transaction at the default isolation level.
  `BackupCodes` runs any number of such transactions, disables and consumptions interleaved, statement by statement
  and row by row. A transaction that does not commit leaves no trace (`UncommittedLeavesNoTrace`). That the stored set
  is the one the last committed replacement installed is false: two replacements that overlap can both end up stored
  (`OverlapStoresBoth`). It holds throughout a run exactly when no writer's delete begins before the previous writer
  of that user, having installed something, has committed (`LastSetIffNoOverlap`); exactly then the rows are also
  those of the atomic operations of `Mfa` (`SerialIffNoOverlap`), so all results about these carry over.
- **Dispatcher.** That no send *starts* once `closed` is set is false of the code: a delivery accepted before
  Shutdown took the mutex may begin its send afterwards (`AcceptedDeliveryMayStartAfterClose`). No send starts exactly
  when no accepted delivery is still waiting to begin (`NoSendStartsIffNoneAccepted`); the set of accepted calls is
  frozen from then on (`NothingAcceptedAfterClose`), and Shutdown's result bounds everything sending or still to send
  (`ShutdownBound`).
- **Routes.** The validator compares `tenant_id` without case, the policy looks the parameter up with case. Accepted
  routes confine requests to the tenant a path parameter names exactly when no spelling of the parameter in that path
  names another tenant (`ConfinedIffOneTenant`).
- **Rate limit.** A span as long as the window admits at most `2 * limit - 1` requests, which is reached for every
  window above one millisecond; at one millisecond the bound is `limit`.
- **Version tokens.** A token determines the versions for one tag list. Across lists it determines the tags too when
  none of them contains "=", a decimal number and "," in a row (`TokenDeterminesTags`); a list has no such tag exactly
  when no longer list shares its token (`UnambiguousIffLongest`).
- **In-memory MFA repository.** It agrees with the SQL statements except in the cases `DoublesDiffer` lists
  (`MemoryAgreesExactly`).

## Model

| member | source | states |
|---|---|---|
| `ResponseCache.EntriesIncludeCountedWrites` | internal/core/policy/cache.go:185-227 | in every interleaving, each data snapshot behind an entry stored under versions V includes every write whose bump took one of its tags g to a version at most V[g], stale local tokens included |
| `ResponseCache.HitsAreFresh` | internal/core/cache/manager.go:389-429 | a hit whose key was built at clock time t is served from data that includes every write whose bump was made at a clock time before t minus the token lifetime minus the store lag |
| `ResponseCache.FetchedHitsSeeEarlierBumps` | internal/core/cache/manager.go:389-429 | a hit whose reader fetched the versions itself includes every write whose bump came earlier in the run than that fetch, clock ticks aside |
| `ResponseCache.HitsSeeEarlierBumps` | internal/core/cache/manager.go:389-429 | with no token cache every hit on a tagged key fetched its versions itself and includes every bump earlier in the run |
| `ResponseCache.RunGrows` | internal/core/cache/manager.go:469-489 | versions, commits and the bump log only grow, and no bump is re-dated or reassigned, over every run |
| `ResponseCache.StepKeepsInv` | internal/core/policy/cache.go:268-287 | every reader, writer, token, expiry and bump step keeps the coherence invariant, each tag bump being its own step |
| `ResponseCache.RunKeepsInv` | internal/core/policy/cache.go:185-227 | the coherence invariant holds after every valid run |
| `ResponseCache.CommittedCovers` | internal/core/policy/cache.go:185-216 | data read now includes every write counted by any version vector Redis has already reached: the reason key-before-read and commit-before-bump suffice |
| `CacheTags.NormalizeResolvedTags` | internal/core/cache/manager.go:551-571 | the result is strictly ascending and holds exactly the trimmed, non-empty names |
| `CacheTags.NormalFormUnique` | internal/core/cache/manager.go:551-571 | two tag lists with the same names normalise to the same list, so readers and writers agree on the keys |
| `CacheTags.TokenDeterminesVersions` | internal/core/cache/manager.go:409-426 | for one tag list, equal tokens come from equal version vectors |
| `CacheTags.TokenDeterminesTags` | internal/core/cache/manager.go:409-426 | across lists of tags without "=", a decimal and "," in a row, the token determines both the tags and the versions |
| `CacheTags.AmbiguousTagsCollide` | internal/core/cache/manager.go:409-426 | every list holding such a tag shares its token with a longer list |
| `CacheTags.UnambiguousIffLongest` | internal/core/cache/manager.go:409-426 | a list has no such tag exactly when no longer list shares its token |
| `CacheTags.TagTokenCache.constructor` | internal/core/cache/manager.go:212-235 | a negative token lifetime becomes zero and the cache starts empty |
| `CacheTags.TagTokenCache.FromCache` | internal/core/cache/manager.go:491-513 | only a live token is returned, an expired one is deleted, other entries stay |
| `CacheTags.TagTokenCache.StoreToken` | internal/core/cache/manager.go:515-524 | the stored token is found exactly until its lifetime is over; other keys answer as before |
| `CacheTags.TagTokenCache.Clear` | internal/core/cache/manager.go:469-489 | after a successful bump no token is found any more |
| `ResponseCapture.BufferIsWholeBodyOrMarked` | internal/core/policy/cache.go:337-349 | for any sequence of writes the buffer is the whole body exactly when it fits the limit, and is otherwise marked too large |
| `ResponseCapture.CachingResponseWriter.constructor` | internal/core/policy/cache.go:320-329 | starts with status 200, nothing written, nothing streamed |
| `ResponseCapture.CachingResponseWriter.WriteHeader` | internal/core/policy/cache.go:331-335 | records the status and keeps the buffer tied to the chunks written |
| `ResponseCapture.CachingResponseWriter.Write` | internal/core/policy/cache.go:337-349 | appends the chunk to the body history and keeps the buffer tied to it |
| `ResponseCapture.CachingResponseWriter.Stream` | internal/core/policy/cache.go:351-367 | a flushed or hijacked response is marked as streamed for good |
| `ResponseCapture.CachingResponseWriter.Cacheable` | internal/core/policy/cache.go:388-401 | with a limit: cacheable exactly when not streamed, no cookie set, status allowed and the whole body fits, and then the buffer is the whole body |
| `SecretCipher.NewKeyRingCipher` | internal/core/auth/secret_cipher.go:120-146 | builds a cipher from exactly the valid rings, holding exactly the ring's keys |
| `SecretCipher.SplitUndoesFrame` | internal/core/auth/secret_cipher.go:234-243 | splitting recovers the key id and payload that Seal framed |
| `SecretCipher.FrameUndoesSplit` | internal/core/auth/secret_cipher.go:234-243 | whatever splits was framed: reframing gives the same bytes |
| `SecretCipher.KeyIdRoundTrip` | internal/core/auth/secret_cipher.go:173-187 | a valid key id survives the conversion to header bytes and back |
| `SecretCipher.OpenUndoesSeal` | internal/core/auth/secret_cipher.go:173-215 | Open returns the sealed plaintext for the same user under every ring that still maps the id to that key, and sealed text never needs rotation |
| `SecretCipher.OpensUnrotatedIffActiveAlone` | internal/core/auth/secret_cipher.go:217-230 | a ciphertext that opens needs no rotation exactly when the active key alone opens it, to the same plaintext; it is then v2 under the active id |
| `SecretCipher.SubRingOpensAlike` | internal/core/auth/secret_cipher.go:189-215 | a ring containing another ring's keys opens everything the other opens, to the same plaintext |
| `TotpKeyring.DecodesFirst` | internal/core/config/config.go:969-982 | a key decodes exactly if some base64 variant yields it with 32 bytes and no earlier variant decodes |
| `TotpKeyring.ReadList` | internal/core/config/totp_keys.go:70-94 | succeeds exactly on well-formed items with distinct ids that leave the single key's id alone, and holds exactly those keys |
| `TotpKeyring.Keyring` | internal/core/config/totp_keys.go:43-104 | accepts exactly the acceptable settings; the ring is valid, with the configured active id, listed keys and legacy key |
| `TotpKeyring.KeyringBuildsCipher` | internal/core/config/totp_keys.go:43-104 | every accepted setting builds a cipher that opens what it seals and never wants that rotated |
| `Rotation.SwapKeepsView` | internal/core/db/sqlcgen/auth_mfa.sql.go:253-278 | a compare-and-swap of a re-sealed secret leaves the table of decrypted secrets unchanged, whatever happened to the row in between |
| `Rotation.WriteView` | internal/core/auth/provider_store.go:233-246 | enrolment, disable and swap change the decrypted table exactly as their rotation-free counterparts |
| `Rotation.RotationsInvisible` | internal/core/auth/provider_store.go:189-228 | over every interleaving, the decrypted table is the one obtained with every rotation erased |
| `Rotation.ListRowsIsPage` | internal/core/auth/mfa_repository.go:170-194 | a page holds at most the limit, is strictly ordered, current, above the cursor and skips nobody up to its last row; an empty page means nobody is left |
| `Rotation.ShortPageIsLast` | internal/core/db/sqlcgen/auth_mfa.sql.go:197-203 | a page that is not full leaves nobody out |
| `Rotation.Repository.ListTotpSecrets` | internal/core/auth/mfa_repository.go:170-194 | returns that page of the table as it stands when the statement runs, with the limit's edge cases, or an error |
| `Rotation.Repository.RotateTotpSecret` | internal/core/auth/mfa_repository.go:154-168 | replaces the ciphertext exactly if it still equals the expected one and reports that; a failed call may or may not have taken effect |
| `Rotation.VisitRow` | cmd/rotatetotpkey/main.go:160-187 | one row: the decrypted table is unchanged, and if the row still needs rotation afterwards the visit failed on it; a dry run writes nothing |
| `Rotation.RotateBatch` | cmd/rotatetotpkey/main.go:159-189 | a batch visits its rows in order and moves progress to its last row |
| `Rotation.NextPage` | cmd/rotatetotpkey/main.go:149-158 | reading a page keeps progress, and an empty page means everyone has been passed |
| `Rotation.Scan` | cmd/rotatetotpkey/main.go:142-193 | the loop over batches terminates; an unfailed scan has passed everyone |
| `Rotation.Rotate` | cmd/rotatetotpkey/main.go:142-193 | visits in strict user order; counters add up; every row present throughout is visited; what still needs rotation is a row counted failed; the run's own writes never change the decrypted table; a dry run or a fully current undisturbed table is left as it is |
| `Rotation.TallyAddsUp` | cmd/rotatetotpkey/main.go:195-198 | Scanned = Current + Rotated + Skipped + Failed for every log of visits |
| `Rotation.RunKeepsOpening` | cmd/rotatetotpkey/main.go:142-193 | a secret that opened at the start opens at every later point of the run at which its row exists |
| `Rotation.RotateThenCheck` | cmd/rotatetotpkey/main.go:142-198 | after an error-free run every secret that opened before opens under the active key alone, to what the full ring gives; a second undisturbed run rotates nothing |
| `Rotation.GetTotpSecret` | internal/core/auth/provider_store.go:189-228 | returns the decrypted secret, or the error of the read or of opening it with nothing written; the lazy swap changes at most that row, to a current ciphertext, and never the decrypted table |
| `Mfa.Store.UpsertTotpSecret` | internal/core/db/sqlcgen/auth_mfa.sql.go:280-298 | refines the enrol step: replaces the secret, keeps verified and counter, syncs the user's flag and counts the flip |
| `Mfa.Store.MarkTotpVerified` | internal/core/db/sqlcgen/auth_mfa.sql.go:237-244 | refines the verify step, not found without a row |
| `Mfa.Store.AdvanceTotpCounter` | internal/core/db/sqlcgen/auth_mfa.sql.go:14-22 | refines the advance step: only to a larger counter |
| `Mfa.Store.RotateTotpSecret` | internal/core/db/sqlcgen/auth_mfa.sql.go:253-260 | refines the compare-and-swap step |
| `Mfa.Store.DisableTotp` | internal/core/db/sqlcgen/auth_mfa.sql.go:83-99 | refines the disable step: secret and codes go, the flag is cleared and the flip counted |
| `Mfa.Store.ConsumeBackupCode` | internal/core/auth/mfa_repository.go:272-285 | refines the consume step: true exactly for an unused stored code, which becomes used |
| `Mfa.Store.UpdateStatus` | internal/core/db/sqlcgen/auth_users.sql.go:121-124 | refines the status step: every update raises the account version |
| `Mfa.Store.DeleteBackupCodes` | internal/core/db/sqlcgen/auth_mfa.sql.go:63-69 | removes exactly the user's codes |
| `Mfa.Store.InsertBackupCodes` | internal/core/db/sqlcgen/auth_mfa.sql.go:146-151 | adds one unused row per hash exactly if no hash repeats or is stored already, and otherwise fails and changes nothing |
| `Mfa.Deduplicate` | internal/core/auth/mfa_repository.go:243-251 | holds exactly the given hashes, each once |
| `Mfa.Store.ReplaceBackupCodes` | internal/core/auth/mfa_repository.go:228-270 | success installs the deduplicated set; failing between the statements leaves the user without codes, failing earlier changes nothing |
| `Mfa.Store.ReplaceInTransaction` | internal/core/auth/provider_store.go:291-302 | alone in its transaction, refines the replace step: any error restores the rows |
| `Mfa.RunsKeepEnabledSound` | internal/core/db/sqlcgen/auth_mfa.sql.go:237-298 | after every run totp_enabled implies a verified secret row |
| `Mfa.VersionCountsTransitions` | internal/core/db/sqlcgen/auth_mfa.sql.go:83-99 | over every run account_version grows by exactly the flips of totp_enabled plus the status updates |
| `Mfa.AcceptedCountersIncrease` | internal/core/db/sqlcgen/auth_mfa.sql.go:14-22 | without a disable in between, accepted counters increase strictly above the stored one, re-enrolment included |
| `Mfa.CounterRestartsAfterDisable` | internal/core/db/sqlcgen/auth_mfa.sql.go:83-99 | disable and enrol start the counter over: any positive counter is accepted again |
| `Mfa.CodesAreSingleUse` | internal/core/db/sqlcgen/auth_mfa.sql.go:38-46 | without a successful replacement or disable in between (failed attempts included in the run), the stored set stays, no code is consumed twice, and the used codes are exactly those used before plus the consumed |
| `Mfa.StoredIsLastInstalled` | internal/core/auth/mfa_repository.go:228-285 | after any run the stored set is what the last successful replacement installed, or nothing if a disable came last, and the used codes are exactly those consumed since, each once |
| `Mfa.MemoryAgreesExactly` | internal/core/auth/authtest/authtest.go:94-282 | the in-memory repository gives the same rows and reply exactly outside the listed cases |
| `BackupCodes.StepKeepsInv` | internal/core/db/sqlcgen/auth_mfa.sql.go:63-69 | every begin, delete, insert, commit, abort and consume step keeps the unique constraint, disjoint row locks and the snapshot facts |
| `BackupCodes.RunKeepsInv` | internal/core/auth/mfa_repository.go:228-270 | so does every run of overlapping transactions |
| `BackupCodes.UncommittedLeavesNoTrace` | internal/core/storage/postgres_store.go:71-107 | a transaction that did not commit could be erased from the run: everybody else can take the same steps, with the same committed rows and history |
| `BackupCodes.SerialIffNoOverlap` | internal/core/auth/mfa_repository.go:228-270 | the stored codes equal those of the same commits and consumptions run one after the other, at every point of the run, exactly when no two consecutive writers of the user overlap |
| `BackupCodes.LastSetIffNoOverlap` | internal/core/auth/provider_store.go:291-302 | the stored set is the one the last committed replacement or disable installed, at every point of the run, exactly under the same condition |
| `BackupCodes.OverlapStoresBoth` | internal/core/auth/mfa_repository.go:228-270 | a run in which two overlapping replacements both commit and both sets end up stored |
| `BackupCodes.SpendsWithinInstalls` | internal/core/db/sqlcgen/auth_mfa.sql.go:38-46 | whatever overlaps, a code is consumed at most once for each time it was installed |
| `Dispatcher.StepKeepsInv` | internal/core/notify/notify.go:167-208 | every step of dispatch, Shutdown and Wait keeps the counters equal to the threads' shares, mutual exclusion and the closer facts |
| `Dispatcher.RunKeepsInv` | internal/core/notify/notify.go:167-271 | the invariant holds after every run |
| `Dispatcher.SendsWithinCapacity` | internal/core/notify/notify.go:167-208 | running sends never exceed the occupied slots, nor these the capacity |
| `Dispatcher.CallsAccountedFor` | internal/core/notify/notify.go:167-208 | calls = accepted + dropped + undecided; with the mutex free, accepted = finished + in flight |
| `Dispatcher.NothingAcceptedAfterClose` | internal/core/notify/notify.go:223-230 | once closed is set, the accepted calls are the same ones for ever |
| `Dispatcher.AcceptedDeliveryMayStartAfterClose` | internal/core/notify/notify.go:185-207 | a reachable state in which a delivery accepted earlier begins to send after closed is set |
| `Dispatcher.NoSendStartsIffNoneAccepted` | internal/core/notify/notify.go:167-230 | once closed is set, no run starts a send exactly when no accepted delivery is still waiting to begin |
| `Dispatcher.ShutdownBound` | internal/core/notify/notify.go:223-249 | Shutdown's result bounds, from its return on, the deliveries sending or still to send; 0 means there is none, ever |
| `Dispatcher.FullWaitSeesNoSend` | internal/core/notify/notify.go:253-271 | when Wait holds every slot, no send is running |
| `Dispatcher.NilWaitHadQuietInstant` | internal/core/notify/notify.go:253-271 | a Wait that returned nil had an instant in the run with no send running |
| `Dispatcher.SlotsGivenBack` | internal/core/notify/notify.go:253-271 | slots are given back exactly and no release underflows a counter |
| `Dispatcher.InflightMayExceedCapacity` | internal/core/notify/notify.go:185-207 | a reachable state with more in flight than slots: the slot is freed before the counter |
| `TtlLru.Segment.constructor` | internal/tenancy/cache.go:123-136 | an empty segment with room for at least one entry |
| `TtlLru.Segment.Lookup` | internal/tenancy/cache.go:138-154 | a live entry is returned and becomes most recent; an expired one is removed; list and map stay in agreement |
| `TtlLru.Segment.Store` | internal/tenancy/cache.go:156-170 | stores at the front and drops the tail beyond the capacity; list and map stay in agreement |
| `TtlLru.Segment.EvictOverflow` | internal/tenancy/cache.go:167-169 | drops list tails with their entries until the segment fits |
| `TtlLru.Segment.Drop` | internal/tenancy/cache.go:172-183 | removes the key from list and map, and nothing else |
| `TtlLru.PutNew` | internal/tenancy/cache.go:156-170 | a new key in a full segment evicts exactly the last key of the list |
| `TtlLru.RunStaysOrdered` | internal/tenancy/cache.go:138-183 | in every run map and list hold the same keys once each, within capacity, in order of last use |
| `TtlLru.EvictionNeedsMaxOthers` | internal/tenancy/cache.go:156-170 | a put evicts a key only if at least max distinct other keys were stored or hit since that key's last use |
| `TenantCache.NegativeTtl` | internal/tenancy/cache.go:27-36 | positive, never above the positive lifetime, a quarter of it from four seconds on, below a second only if the positive lifetime is |
| `TenantCache.ValidationCache.constructor` | internal/tenancy/cache.go:61-70 | two empty segments with their own lifetimes and capacities |
| `TenantCache.ValidationCache.Lookup` | internal/tenancy/cache.go:75-88 | asks the active segment first and the inactive one only on a miss |
| `TenantCache.ValidationCache.Store` | internal/tenancy/cache.go:90-101 | stores in the segment of the result and drops the key from the other |
| `TenantCache.RunConsistent` | internal/tenancy/cache.go:75-101 | serial runs keep the segments disjoint and every entry equal to the latest result for its key |
| `TenantCache.HitIsLatest` | internal/tenancy/cache.go:75-101 | no key is in both segments and a hit is the most recently remembered result |
| `TenantCache.FloodIsolation` | internal/tenancy/cache.go:61-101 | adding any lookups and inactive results for keys never stored active leaves the active segment's entries, order and answers identical |
| `TenantLookup.CacheKeyInjective` | internal/tenancy/cache.go:72-72 | keys of different resolvers or values never coincide |
| `TenantLookup.StepKeepsInv` | internal/tenancy/resolver.go:223-246 | every step of every concurrent lookup keeps each entry backed by a recent directory answer |
| `TenantLookup.RunKeepsInv` | internal/tenancy/resolver.go:223-246 | so does every run |
| `TenantLookup.AnswersAreRecent` | internal/tenancy/resolver.go:223-246 | every answer at time t is the directory's answer for that resolver and value at most one lifetime earlier (the negative one if inactive or unknown), however often it was hit; directory errors are never remembered |
| `DocumentStore.TxRunMatches` | internal/storage/document/memory.go:129-263 | through staged writes a transaction sees and answers what direct execution would, for every list of operations |
| `DocumentStore.CommittedShows` | internal/storage/document/memory.go:79-99 | after commit each collection is what the transaction saw; unstaged collections are untouched |
| `DocumentStore.CommitEqualsDirect` | internal/storage/document/memory.go:49-121 | one transaction plus commit gives the same replies and the same documents as running the operations directly |
| `DocumentStore.CollectionsDifferExactly` | internal/storage/document/memory.go:79-99 | direct execution and commit leave the same collections, except exactly for a new collection that was written to and ended up empty |
| `DocumentStore.EmptyCollectionsDiffer` | internal/storage/document/memory.go:79-99 | inserting and deleting one document is such a run |
| `DocumentStore.MemoryTx.Stage` | internal/storage/document/memory.go:106-113 | stages exactly that write |
| `DocumentStore.InMemoryStore.GetDoc` | internal/storage/document/memory.go:129-147 | answers from the collection as the caller sees it, staged deletions included |
| `DocumentStore.InMemoryStore.WriteDoc` | internal/storage/document/memory.go:169-185 | exactly that write, staged inside a transaction and direct outside |
| `DocumentStore.InMemoryStore.InsertDoc` | internal/storage/document/memory.go:149-160 | writes exactly if the id is not seen, and otherwise changes nothing |
| `DocumentStore.InMemoryStore.ReplaceDoc` | internal/storage/document/memory.go:162-167 | the reply and write of a replacement |
| `DocumentStore.InMemoryStore.DeleteDoc` | internal/storage/document/memory.go:187-221 | deletes exactly if the id is seen, and otherwise changes nothing |
| `DocumentStore.InMemoryStore.FindDocs` | internal/storage/document/memory.go:223-263 | the matching documents as seen, in id order |
| `DocumentStore.InMemoryStore.OverlayAll` | internal/storage/document/memory.go:228-246 | the overlay does not depend on the order in which the map is walked |
| `DocumentStore.InMemoryStore.Listing` | internal/storage/document/memory.go:248-262 | the sorted listing of matches, whatever order the map yields |
| `DocumentStore.InMemoryStore.CommitCollection` | internal/storage/document/memory.go:83-97 | one collection's writes land independently of map order; deletions never create a collection |
| `DocumentStore.InMemoryStore.Commit` | internal/storage/document/memory.go:79-99 | commit's effect does not depend on map order and touches only staged ids |
| `DocumentStore.InMemoryStore.Exec` | internal/storage/document/memory.go:129-263 | one operation, direct or staged, matches its specification |
| `DocumentStore.InMemoryStore.WithTx` | internal/storage/document/memory.go:49-77 | replies and documents equal direct execution; a failing callback leaves the store unchanged |
| `Markers.StripMarkers` | cmd/templateinit/init.go:269-312 | the loop computes the scan of the lines, the early return for files without the word included |
| `Markers.MatchIsSyntax` | cmd/templateinit/init.go:264-264 | a marker starts at a position exactly when the text there reads template:begin or template:end, at least one space and the whole name |
| `Markers.KindIsLeftmost` | cmd/templateinit/init.go:279-286 | a line's marker is the leftmost one that starts in it |
| `Markers.NoTemplateNoChange` | cmd/templateinit/init.go:270-272 | a file that never mentions the word is returned as it is |
| `Markers.ScanForest` | cmd/templateinit/init.go:278-308 | scanning a properly nested stretch emits its pruned lines and restores stack and depth |
| `Markers.PruneKeepsUnremoved` | cmd/templateinit/init.go:278-308 | a line survives exactly when no enclosing block is removed and it is not a dropped marker |
| `Markers.StripIsPruning` | cmd/templateinit/init.go:269-312 | on a properly nested file the output is the pruned parse tree |
| `Markers.StripsExactlyNested` | cmd/templateinit/init.go:295-311 | success is proper nesting, whatever is removed and whether or not markers are dropped |
| `Markers.Resplit` | cmd/templateinit/init.go:273-273 | joining kept lines and splitting again gives them back, up to an empty last piece |
| `Markers.TwoPassesAreOne` | cmd/templateinit/init.go:269-312 | removing one set with markers kept and then another equals one pass with the union |
| `RoutePolicies.Chain` | internal/core/policy/policy.go:26-34 | composing backwards serves each request through the policies in order, nil ones skipped |
| `RoutePolicies.DescribePolicies` | internal/core/policy/metadata.go:120-133 | metadata in order exactly when every policy is present and annotated |
| `RoutePolicies.ValidatePolicyOrdering` | internal/core/policy/validator_rules.go:46-62 | no error exactly when any two policies with a stage are in stage order |
| `RoutePolicies.HasPolicyType` | internal/core/policy/validator_rules.go:93-100 | true exactly if the type occurs |
| `RoutePolicies.SelectMembers` | internal/core/policy/validator_rules.go:102-110 | the selection holds exactly the entries of the type |
| `RoutePolicies.FindPolicies` | internal/core/policy/validator_rules.go:102-110 | the entries of the type in order |
| `RoutePolicies.ValidateAuthDependencies` | internal/core/policy/validator_rules.go:64-76 | no error exactly when permission checks come with AuthRequired |
| `RoutePolicies.ValidateCacheSafety` | internal/core/policy/validator_rules.go:78-91 | no error exactly when every cached read on an authenticated route varies by identity |
| `RoutePolicies.ScanMetas` | internal/tenancy/rules.go:25-43 | the loop finds the first TenantRequired and path match, all path matches, and whether AuthRequired occurs |
| `RoutePolicies.RouteRule` | internal/tenancy/rules.go:23-69 | the error is the one the quantified conditions on the list call for, in the rule's order |
| `RoutePolicies.ValidateRouteRules` | internal/core/policy/validator_rules.go:25-44 | ordering, authentication, caching, then the first complaining rule, nil rules skipped |
| `RoutePolicies.ValidateRouteMetadata` | internal/core/policy/validator.go:60-74 | missing method or pattern first, empty lists accepted, then the rules |
| `RoutePolicies.ValidateRoute` | internal/core/policy/validator.go:34-50 | no error exactly when the route is accepted |
| `RoutePolicies.AcceptedAreGuarded` | internal/tenancy/rules.go:45-66 | an accepted non-empty list on a {tenant_id} pattern has its last AuthRequired, then TenantRequired, then a path match on that parameter |
| `RoutePolicies.AcceptedRoutesIsolate` | internal/tenancy/policies.go:39-112 | each request that reaches the handler got its principal from the last AuthRequired, then passed TenantRequired; its tenant equals the path tenant and any resolved request tenant |
| `RoutePolicies.PathTenantMatches` | internal/tenancy/policies.go:87-112 | if no spelling of the parameter in the path names another tenant, the principal's tenant is that path value |
| `RoutePolicies.OtherSpellingSlips` | internal/tenancy/rules.go:60-66 | for every path with a spelling that names another tenant, an accepted route lets that tenant reach the handler |
| `RoutePolicies.ConfinedIffOneTenant` | internal/tenancy/rules.go:60-66 | accepted routes confine every request on a path to the tenant a parameter names exactly when no spelling of it names another |
| `RoutePolicies.PermissionChecksFollowAuth` | internal/core/policy/validator_rules.go:46-76 | on an accepted route every permission check comes after an AuthRequired, and no AuthRequired follows it |
| `RateLimit.RedisLimiter.constructor` | internal/core/ratelimit/ratelimit.go:151-166 | starts with no counters |
| `RateLimit.RedisLimiter.Allow` | internal/core/ratelimit/ratelimit.go:169-230 | bad requests are refused untouched; otherwise the script's answer decides and only that key's counter changes |
| `RateLimit.CounterTracksWindow` | internal/core/ratelimit/ratelimit.go:127-148 | the counter is the request's number within its window and expires at the window's end, the window being defined by arrival times alone |
| `RateLimit.WindowAdmitsItsFirst` | internal/core/ratelimit/ratelimit.go:127-148 | each window admits exactly its first limit requests and reports what remains |
| `RateLimit.WindowsAreApart` | internal/core/ratelimit/ratelimit.go:127-148 | a later window opens at least a window length after an earlier one |
| `RateLimit.SpanBound` | internal/core/ratelimit/ratelimit.go:127-148 | any half-open span of one window length admits at most 2 * limit - 1 requests |
| `RateLimit.SpanBoundIsTight` | internal/core/ratelimit/ratelimit.go:127-148 | for every limit and every window above one millisecond that bound is reached |
| `RateLimit.OneMillisecondBound` | internal/core/ratelimit/ratelimit.go:127-148 | a one-millisecond window admits at most the limit in a span of its length |
| `RateLimit.OneMillisecondBoundIsTight` | internal/core/ratelimit/ratelimit.go:127-148 | and that bound is reached |
| `RateLimit.RetryAfterSecondsIsCeiling` | internal/core/ratelimit/ratelimit.go:379-384 | the least number of whole seconds covering the delay |
| `RateLimit.RetryReachesWindowEnd` | internal/core/ratelimit/ratelimit.go:213-226 | a blocked request that waits its Retry-After reaches its window's end, and the first request after the window is admitted |
| `RateLimit.SubMillisecondNeverBlocks` | internal/core/ratelimit/ratelimit.go:132-140 | a window under one millisecond never blocks, since its key is deleted at once |
| `SampleKey.MixUint64` | internal/core/httpx/accesslog.go:159-166 | the steps compute the mixer of the 64-bit word, and the inverse mixer gives the word back |
| `SampleKey.UnmixUndoesMix` | internal/core/httpx/accesslog.go:159-166 | the mixer has a left inverse modulo 2^64, so it is one-to-one |
| `SampleKey.MixUndoesUnmix` | internal/core/httpx/accesslog.go:159-166 | and a right inverse, so it reaches every word |
| `SampleKey.ParseHexPrefix64` | internal/core/httpx/accesslog.go:129-144 | succeeds exactly on sixteen leading hexadecimal digits, with exactly the number they spell |
| `SampleKey.PushDigit` | internal/core/httpx/accesslog.go:120-123 | shifting and or-ing in a digit extends the number without losing bits while it fits 64 bits |
| `SampleKey.SampleKeyFromRequestID` | internal/core/httpx/accesslog.go:110-127 | the key is that number, or the mix of the first eight bytes and the length |
| `SampleKey.SameLengthKeys` | internal/core/httpx/accesslog.go:110-127 | mixed keys of ids of one length agree exactly when their first eight bytes do |
| `SampleKey.ShortIdsNeverCollide` | internal/core/httpx/accesslog.go:110-127 | different ids of one length up to eight bytes never share a key |
| `SampleKey.HexKeys` | internal/core/httpx/accesslog.go:129-157 | ids starting with sixteen hexadecimal digits share a key exactly when the digits agree in value |

## Left out

- AES-GCM, nonce randomness and base64: AEAD sealing and decoding are function parameters; only that Open undoes Seal is assumed, as a `requires` (`SecretCipher.LawfulExists` shows it can hold). No cryptographic claim is made.
- Hashing of cache keys and the joined key string: the key is the tuple of request dimensions, tags and versions.
- Loss of Redis version keys.
- Liveness: no fairness is assumed, so that a step eventually happens is never claimed; loops are proved to terminate.
- Locks inside one cache segment, one SQL statement or one Redis command: each is one atomic step.
- Clocks are parameters or steps; `TenantLookup` and `ResponseCache` let time pass between any two steps, within `lag` where a bound needs one.
- Error texts, logging, metrics, tracing and HTTP header details.
- Byte-slice aliasing and cloning: documents, secrets and bodies are values.
- DocumentStore.InMemoryStore.WithTx: nested transactions are not modelled, and a callback is a list of operations with a final success or failure.
- DocumentStore.InMemoryStore.FindDocs: the JSON field filter is an arbitrary predicate on the payload.
- Strings.Lower: letter case is folded for ASCII only.
- RoutePolicies.AcceptedRoutesIsolate: for custom policies that leave principal, resolved tenant and path parameters alone; a custom policy may otherwise do anything. Routes without policies are accepted unchecked by the validator, so non-empty lists only. The metadata registry is the function from policies to metadata.
- RateLimit.RetryAfterSecondsIsCeiling: seconds are exact, not floating point.
- RateLimit.RedisLimiter.Allow: the counter key is given, building and sanitising it is not modelled, and neither are Redis failures with their fail-open and fail-closed answers.
- Mfa.Store.ReplaceInTransaction: has the database to itself; overlapping transactions are in `BackupCodes`.
- BackupCodes.UncommittedLeavesNoTrace: a commit that took effect although its acknowledgement was lost counts as committed, while the caller sees an error. A consumption is one step, and users are neither created nor deleted during a run.
- The other policies' own decisions (permissions, JSON bodies, headers), tenant extraction from requests, configuration loading, code generation, module renaming and the rest of template initialisation.
