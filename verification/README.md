# Formal model of the API's stateful services

This project models the services of the API whose state lives in Redis and Postgres, and proves
what they promise over all inputs, runs and interleavings. Redis keys are maps and sets held by
classes or by the state of a step machine; each command, MULTI block or database transaction is one
atomic step. Times are integers. Everything the environment decides (clock readings, fresh
identifiers, whether a foreign call succeeds, verdicts of sniffers and signature checks) is a
parameter.

| files | what they model |
|---|---|
| `Common.dfy` | results and errors |
| `UploadRecord.dfy`, `UploadFile.dfy`, `UploadService.dfy` | the upload record, chunk arithmetic, what the temp file holds, and the upload calls over a byte array, one call at a time |
| `UploadProtocol.dfy`, `UploadInvariant.dfy` | concurrent upload calls, one command at a time, with WATCH kept per connection, and the invariant |
| `UploadTheorems.dfy`, `UploadLock.dfy`, `UploadLease.dfy`, `UploadSharing.dfy` | what holds while no CAS is disturbed; under the lock, with other uploads on the client; when the lock excludes; and which connections are safe |
| `UploadCalls.dfy`, `UploadSession.dfy` | a call that nothing comes between, command by command, and a whole upload from `init` to the stored file |
| `UploadCleanup.dfy` | the cleaner of abandoned temp files |
| `AuthTokens.dfy`, `RefreshProtocol.dfy`, `RefreshTheorems.dfy` | refresh, login, token revoke and session revoke, interleaved command by command |
| `SessionRevocation.dfy`, `RefreshRuns.dfy` | what a session revoke leaves behind, and runs that show it |
| `Sessions.dfy`, `RefreshService.dfy` | sessions, their indexes, their tokens, and the refresh calls, one call at a time |
| `SessionIndexes.dfy` | sessions and their two indexes, interleaved command by command |
| `Counters.dfy` | the counter write-behind cache, whole flushes and overlapping ones |
| `Forest.dfy`, `Categories.dfy` | the category relation, its writes, breadcrumbs and tree |
| `Keyset.dfy`, `MovingKeys.dfy`, `Enumeration.dfy`, `ProductListing.dfy`, `Likes.dfy` | keyset pagination over changing tables, moving keys and fixed tables, its four product orders, the like list and the like counter |
| `Otp.dfy`, `OtpProtocol.dfy`, `RateLimit.dfy` | one-time passwords as a timed state machine of whole calls and interleaved command by command, the fixed-window limiters |

Run `dafny verify dfyconfig.toml`.

## Where the code does less than intended

Each of these is kept as the code has it, with the exact condition proved.

- All calls of all uploads share one Redis client while WATCH belongs to the connection: two interleaved CAS can
  both win. At most one upload happens over every run if and only if every caller has a connection of its own
  (`SafeIffExclusive`). The per-upload lock does not protect the WATCH from calls on other uploads; one call at a
  time still uploads at most once (`LockedUploadsOnce`), but a session deleted in the middle of its CAS can come
  back (`DeletedComesBackIff`, `AbortedSessionComesBack`).
- The lock excludes only while no call outlasts its lease; after that a release can even delete a later owner's lock
  (`ExcludesIff`, `LeasedUploadsOnce`).
- `writeChunk` ignores how many bytes `fh.write` wrote, so a write that falls short is recorded as received
  (`WriteChunk`, `FileIsReassembled`).
- The exception for a disallowed content type is swallowed by the `catch` around the sniff, in `writeChunk` and
  in `finish`; the call goes on and fails at the next file open or CAS.
- `update` of a category has no cycle check (`ReparentAcyclicIff`, `UpdateCanCloseACycle`). On a cycle
  `breadcrumbs` does not end (`Breadcrumbs`).
- `remove` of a category reads the parent before its transaction; two moves in between can make it close a cycle
  (`StaleRemoveAcyclicIff`, `StaleRemoveClosesACycle`).
- The `popular` cursor omits `likesCount` (`PopularAtPageSizeIff` for one page size, `PopularEnumeratesIff` for all,
  `PopularSkipsARow`).
- A failed DEL in a token revoke leaves the jti in both lists (`ListsDisjointIff`, `FailedDelLeavesBoth`), and a lost
  link keeps a token usable after its session is revoked (`RevokeThenRefresh`).
- A session revoke deletes what it read earlier: a token stored since the read survives it (`RevokeLeavesIff`,
  `PairedIff`, `StaleRevoke`), and a refresh in flight brings a revoked session back (`RevokedForGoodIff`,
  `RefreshOutlivesRevoke`).
- A touch whose session is revoked between its GET and its MULTI brings the session back, in the ZSET alone
  (`SameMembersIff`, `EndedForGoodIff`, `TouchOutlivesRevoke`).
- A session page that drops stale members makes the next page skip as many live ones (`NextPageSkips`).
- A row that moves to the front between two pages is missed, and with `liked` one that falls back comes twice
  (`MovingKeys.ListedIff`, `LikedAgainIsMissed`, `LikedComesTwice`).
- `resendOtp` does not test the block when it finds a hash, and a verify can leave one during a block
  (`BlockHoldsIff`, `CodeDuringBlock`).
- HINCRBY on a one-time password whose key expired since it was read recreates the key, which allows one comparison
  too many (`OverrunIff`, `LimitHoldsIff`, `OverrunHappens`), and two calls that both read the hash before either
  deletes it hand out two tickets (`SecondTicketIff`, `TwoTickets`).

## Model

| member | source | states |
|---|---|---|
| `UploadRecord.EnsureSortedUnique` | apps/api/src/core/upload/upload.state.redis.ts:15-17 | the result is strictly increasing and has exactly the elements of the input |
| `UploadRecord.SortedUniqueIsCanonical` | apps/api/src/core/upload/upload.state.redis.ts:15-17 | a strictly increasing list is determined by its elements, so order and repetition of arrivals do not matter |
| `UploadRecord.MergeKeepsProgress` | apps/api/src/core/upload/upload.state.redis.ts:191-230 | whatever the patch: version grows by one, createdAt stays, receivedBytes never falls, the index set becomes exactly the union |
| `UploadRecord.PatchWins` | apps/api/src/core/upload/upload.state.redis.ts:191-230 | field by field: what the patch has wins, what it lacks stays, receivedBytes is the larger of the two, createdAt stays |
| `UploadRecord.SnapshotEqualsRecord` | apps/api/src/core/upload/upload.service.ts:751-770 | after a won CAS the caller's updated snapshot equals the record `mergeStatus` stored |
| `UploadRecord.NoProgressKeepsIndexes` | apps/api/src/core/upload/upload.state.redis.ts:191-215 | a patch without indexes leaves the index list as it was |
| `UploadRecord.CeilDivMeaning` | apps/api/src/core/upload/upload.service.ts:161-164 | `Math.ceil` yields the one chunk count with (n-1)*chunkSize < size <= n*chunkSize |
| `UploadRecord.RegionBounds` | apps/api/src/core/upload/upload.service.ts:226-228 | every chunk region is non-empty, at most chunkSize long and inside the file; consecutive regions touch; only the last ends at size |
| `UploadRecord.ChunkLengthMeaning` | apps/api/src/core/upload/upload.service.ts:546-555 | the length demanded of chunk k is the chunk size, or what is left of the file if that is less |
| `UploadRecord.RegionsDisjoint` | apps/api/src/core/upload/upload.service.ts:226-228 | regions of different chunks do not overlap |
| `UploadRecord.RegionsTile` | apps/api/src/core/upload/upload.service.ts:226-228 | every byte of the file lies in exactly one chunk region, the one of byte / chunkSize |
| `UploadRecord.Pigeonhole` | apps/api/src/core/upload/upload.service.ts:558-567 | n distinct indexes below n are all of 0..n-1 |
| `UploadRecord.CompleteMeansEveryChunk` | apps/api/src/core/upload/upload.service.ts:558-567 | on a stored record the length test alone decides completeness; the position test behind it never fails |
| `UploadRecord.ReceivedBytesMeaning` | apps/api/src/core/upload/upload.service.ts:267-275 | receivedBytes is the largest end of a received region, at most size, and equals size exactly when the last chunk is in |
| `UploadRecord.PercentHundredIffComplete` | apps/api/src/core/upload/upload.service.ts:286-289 | percent is the floor of 100 times the share of received chunks, between 0 and 100, and 100 exactly when every chunk is in |
| `UploadRecord.ProgressAddsIndex` | apps/api/src/core/upload/upload.service.ts:267-275 | the progress patch adds exactly its index, and snapshot and stored record agree after it |
| `UploadRecord.ProgressKeepsWellFormed` | apps/api/src/core/upload/upload.service.ts:267-275 | recording an accepted chunk keeps every invariant of the record |
| `UploadProtocol.SiteEdge` | apps/api/src/core/upload/upload.service.ts:216-490 | each of the nine patches of the service keeps the record well formed and makes one allowed move: frozen fields stay, progress grows, the state follows its lifecycle |
| `UploadInvariant.LogOrder` | apps/api/src/core/upload/upload.state.redis.ts:86-134 | between any two stored records: versions count the wins, progress only grows, frozen fields stay, the index set is frozen past `receiving` |
| `UploadInvariant.EntersOnce` | apps/api/src/core/upload/upload.service.ts:369-462 | a record enters `uploading`, and enters `uploaded`, at most once |
| `UploadInvariant.RunKeeps` | apps/api/src/core/upload/upload.service.ts:189-522 | the invariant of log, snapshots, connections and effects holds after every run in which no CAS is disturbed on its connection |
| `UploadTheorems.AtMostOneFinish` | apps/api/src/core/upload/upload.service.ts:312-480 | over every such run, lock lost or not, at most one call hands the file to the storage driver and at most one media record is created |
| `UploadTheorems.ExclusiveUndisturbed` | apps/api/src/core/upload/upload.state.redis.ts:86-134 | with a connection of its own for every caller, shared with no other upload, no CAS is ever disturbed |
| `UploadTheorems.CasLinearises` | apps/api/src/core/upload/upload.state.redis.ts:86-134 | the stored record is the fold of all winning patches in version order, and each version was stored exactly once |
| `UploadTheorems.SnapshotIsStoredRecord` | apps/api/src/core/upload/upload.service.ts:751-770 | a call in flight holds a record of the log; after a win its snapshot is the record that win stored |
| `UploadTheorems.ProgressOrder` | apps/api/src/core/upload/upload.service.ts:205-490 | progress order over every undisturbed run, with every stored record well formed and every adjacent pair an allowed state move |
| `UploadTheorems.DeletedStaysDeleted` | apps/api/src/core/upload/upload.service.ts:512-522 | in an undisturbed run a deleted record is never stored again |
| `UploadCalls.LoneCas` | apps/api/src/core/upload/upload.state.redis.ts:86-134 | a CAS that nothing comes between wins and stores the merge |
| `UploadCalls.LoneChunk` | apps/api/src/core/upload/upload.service.ts:189-293 | a `writeChunk` that nothing comes between, in time and with a chunk of min(chunkSize, size - k*chunkSize) bytes, records exactly its index and changes nothing else but the progress |
| `UploadCalls.LoneFinish` | apps/api/src/core/upload/upload.service.ts:306-509 | a `finish` that nothing comes between, on a complete session in time, with n transient failures below the limit: n + 1 calls of the driver, one media record, and the session ends |
| `UploadCalls.LosesIff` | apps/api/src/core/upload/upload.state.redis.ts:86-134 | on a connection of its own a CAS under way is lost by exactly the commands of others that write the record, delete it or refresh its TTL |
| `UploadLock.LockedUploadsOnce` | apps/api/src/core/upload/upload.state.redis.ts:137-157 | one call at a time, as under the lock, on any connections, with the record deleted and other uploads' commands on the client at any point: at most one transfer and at most one media record |
| `UploadLock.LockedLinearises` | apps/api/src/core/upload/upload.state.redis.ts:86-157 | over the same runs the record, while it exists, is the fold of all winning patches in version order |
| `UploadLock.LockedProgressOrder` | apps/api/src/core/upload/upload.state.redis.ts:86-157 | over the same runs progress order holds between any two stored records |
| `UploadLock.DeletedComesBackIff` | apps/api/src/core/upload/upload.state.redis.ts:86-134 | a record deleted between a call's GET and its EXEC is stored again if and only if the last thing other uploads did on that connection since the WATCH cleared it |
| `UploadLock.AbortedSessionComesBack` | apps/api/src/core/upload/upload.service.ts:512-522 | it happens under the lock: a session aborted during a chunk call comes back when a call on another upload ends its CAS on the client in between |
| `UploadLease.SafeIff` | apps/api/src/core/upload/upload.state.redis.ts:137-171 | over runs of the lock, everyone who works or is about to delete the lock owns it, at every point, if and only if no lease ends while its owner works or between the GET and the DEL of its release |
| `UploadLease.ExcludesIff` | apps/api/src/core/upload/upload.state.redis.ts:137-171 | from any point on, as long as no further lease ends, at most one call works at a time if and only if the lock is safe at that point; a stale DEL can take it from a later owner |
| `UploadLease.LeasesGiveOneCall` | apps/api/src/core/upload/upload.service.ts:773-783 | upload calls that move only inside their `withLock` work run one at a time as long as no call outlasts its lease |
| `UploadLease.LeasedUploadsOnce` | apps/api/src/core/upload/upload.service.ts:773-783 | so over every run of lock, calls, aborts and other uploads in which no call outlasts its lease there is at most one transfer and one media record |
| `UploadSharing.SharedConnectionBreaks` | apps/api/src/core/upload/upload.module.ts:50-59 | whenever two callers share a connection, or one shares its own with other uploads, there is a run in which both win `uploading` and both transfer the file |
| `UploadSharing.SafeIffExclusive` | apps/api/src/core/upload/upload.module.ts:50-59 | every run uploads at most once if and only if there is one caller, or every caller has a connection nobody else uses; the module gives all calls one client |
| `UploadFile.ReassembledHolds` | apps/api/src/core/upload/upload.service.ts:226-265 | in the concatenation of the accepted chunks each chunk lies in its own region |
| `UploadFile.FileIsReassembled` | apps/api/src/core/upload/upload.service.ts:253-316 | a complete upload's file is the concatenation of each index's first accepted bytes if and only if the write of none of them fell short |
| `UploadFile.WriteKeepsOthers` | apps/api/src/core/upload/upload.service.ts:253-265 | a write inside one region, complete or not, leaves every other accepted chunk as it was |
| `UploadFile.HoldsFrame` | apps/api/src/core/upload/upload.service.ts:751-770 | what the file holds survives every patch that is not progress |
| `UploadFile.RecordChunk` | apps/api/src/core/upload/upload.service.ts:267-275 | recording a chunk extends what the file holds by exactly that chunk, or by a gap where its write fell short |
| `UploadService.RedisUploadStateStore.Create` | apps/api/src/core/upload/upload.state.redis.ts:36-60 | SET NX: never overwrites; stores the normalised record with its TTL |
| `UploadService.RedisUploadStateStore.Get` | apps/api/src/core/upload/upload.state.redis.ts:63-78 | the stored record with its indexes normalised, or none |
| `UploadService.RedisUploadStateStore.PatchCAS` | apps/api/src/core/upload/upload.state.redis.ts:86-134 | wins exactly if the record exists at the expected version and EXEC is not aborted; stores the merge, keeps a positive TTL |
| `UploadService.RedisUploadStateStore.Touch` | apps/api/src/core/upload/upload.state.redis.ts:174-181 | moves the TTL only, to at least one second; never the record |
| `UploadService.RedisUploadStateStore.Delete` | apps/api/src/core/upload/upload.state.redis.ts:184-186 | removes exactly that record and its TTL |
| `UploadService.UploadService.Init` | apps/api/src/core/upload/upload.service.ts:108-186 | succeeds exactly for a positive size within the limit, an allowed extension and type and a file that could be created; stores the full initial record; each refusal with its error changes nothing |
| `UploadService.UploadService.MustGetActive` | apps/api/src/core/upload/upload.service.ts:529-543 | succeeds exactly for an existing, unexpired session, which it leaves alone; an expired one is refused, and its file and record go as far as the clean-up works |
| `UploadService.UploadService.PatchAndSync` | apps/api/src/core/upload/upload.service.ts:703-770 | wins exactly if the record exists and EXEC succeeds; then the returned snapshot is the stored record |
| `UploadService.UploadService.PatchState` | apps/api/src/core/upload/upload.service.ts:703-770 | the same for every patch that is not progress: file, indexes and geometry stay |
| `UploadService.UploadService.WriteAt` | apps/api/src/core/upload/upload.service.ts:255-265 | writes the first `written` bytes of the chunk into its region and nothing else; the region then holds the chunk if and only if the bytes it left unwritten were there already |
| `UploadService.UploadService.SniffFirstChunk` | apps/api/src/core/upload/upload.service.ts:230-250 | a disallowed type removes file and record but the call goes on; an allowed one patches the type; nothing recorded changes |
| `UploadService.UploadService.OpenForChunk` | apps/api/src/core/upload/upload.service.ts:194-250 | the checks before the write: on success the snapshot is the receiving record and the chunk has exactly its length |
| `UploadService.UploadService.WriteChunkRegion` | apps/api/src/core/upload/upload.service.ts:253-265 | a write of an unrecorded chunk, complete or broken off, keeps every recorded one; the region holds the chunk if and only if the write did not fall short |
| `UploadService.UploadService.StoreChunk` | apps/api/src/core/upload/upload.service.ts:253-265 | succeeds exactly if the file is there, opens and the write reports success; recorded chunks stay |
| `UploadService.UploadService.PatchIndexes` | apps/api/src/core/upload/upload.service.ts:270-275 | the progress patch adds exactly its index to the record |
| `UploadService.UploadService.PatchProgress` | apps/api/src/core/upload/upload.service.ts:267-275 | the CAS of an accepted chunk: wins exactly if the record is there and EXEC succeeds, and then adds exactly this index |
| `UploadService.UploadService.RecordProgress` | apps/api/src/core/upload/upload.service.ts:267-289 | the same with the TTL refresh and the reply |
| `UploadService.UploadService.WriteChunk` | apps/api/src/core/upload/upload.service.ts:189-293 | exactly when it succeeds, in the record and the call alone, and the exception of each refusal; success records exactly this index and its bytes received, sniffed type and TTL, keeps the first accepted bytes of a replayed one, notes a write that fell short and reports progress; on failure at any point no recorded index or accepted byte changes; other uploads' records never change |
| `UploadService.UploadService.AssertAllChunksReceived` | apps/api/src/core/upload/upload.service.ts:558-567 | accepts exactly the list 0..totalChunks-1, which on a stored record is the length test |
| `UploadService.UploadService.UploadWithRetry` | apps/api/src/core/upload/upload.service.ts:668-700 | succeeds exactly if some attempt within the limit does and all before it failed transiently, and then the given bytes are stored; after a failure the path is as before or holds what a failed attempt left; at most maxAttempts calls |
| `UploadService.UploadService.OpenForFinish` | apps/api/src/core/upload/upload.service.ts:312-372 | everything before the transfer: success means a complete record, now `ready-to-upload`, with its indexes unchanged |
| `UploadService.UploadService.OpenSession` | apps/api/src/core/upload/upload.service.ts:313-325 | the checks of `finish`: exactly an unexpired record of full length in `receiving` or `ready-to-upload` passes, untouched |
| `UploadService.UploadService.MarkReady` | apps/api/src/core/upload/upload.service.ts:369-372 | the CAS into `ready-to-upload` with the remote path |
| `UploadService.UploadService.StartUpload` | apps/api/src/core/upload/upload.service.ts:378-387 | exactly with the file there, the directory made and the CAS won the record becomes `uploading` |
| `UploadService.UploadService.SniffAtFinish` | apps/api/src/core/upload/upload.service.ts:327-346 | a disallowed type removes file and record and the call goes on; geometry, state and indexes stay |
| `UploadService.UploadService.SendFile` | apps/api/src/core/upload/upload.service.ts:378-424 | exactly when the file is sent; then the driver stores every accepted chunk in its place, and their concatenation if and only if no write fell short |
| `UploadService.UploadService.TransferFile` | apps/api/src/core/upload/upload.service.ts:374-462 | ends in `uploaded` with the file stored, or in the error of the step that failed; the temp file goes unless the configuration keeps it after a failed transfer |
| `UploadService.UploadService.TransferFailed` | apps/api/src/core/upload/upload.service.ts:438-460 | state and version of the record change to `error` unless the CAS is lost; the temp file stays only if the configuration keeps it |
| `UploadService.UploadService.MarkUploaded` | apps/api/src/core/upload/upload.service.ts:456-462 | the temp file goes and the record becomes `uploaded` unless the CAS is lost |
| `UploadService.UploadService.FlagError` | apps/api/src/core/upload/upload.service.ts:438-490 | the patch to `error`: lost, or state and version of this record change and nothing else |
| `UploadService.UploadService.TakeBack` | apps/api/src/core/upload/upload.service.ts:482-491 | the remote file is taken back if the driver manages to, and the failure is reported |
| `UploadService.UploadService.Persist` | apps/api/src/core/upload/upload.service.ts:469-494 | media record, or the remote file taken back and the failure reported |
| `UploadService.UploadService.Deliver` | apps/api/src/core/upload/upload.service.ts:374-494 | what each outcome leaves behind: stored file, media record and exception |
| `UploadService.UploadService.Finish` | apps/api/src/core/upload/upload.service.ts:306-509 | exactly when it succeeds, in the record and the call alone; a media record is created exactly on success, for a file that is the concatenation of each index's first accepted bytes if and only if no write fell short; for each failure what is left at the driver; other paths and other uploads' records never change |
| `UploadService.UploadService.Abort` | apps/api/src/core/upload/upload.service.ts:512-522 | the record goes, whatever the state, and the file if its removal works; an unknown session is refused |
| `UploadSession.WholeUpload` | apps/api/src/core/upload/upload.service.ts:108-509 | after `init`, chunks of min(chunkSize, size - k*chunkSize) bytes in any order covering all indexes, repeats allowed, no foreign step failing and the clock within the expiry, transient transfer failures below the limit: every `writeChunk` and `finish` succeed, and byte b of the stored file is byte b % chunkSize of chunk b / chunkSize |
| `UploadCleanup.SlackIsAnHour` | apps/api/src/core/upload/upload.cleanup.ts:36-43 | the rounding of the age limit leaves at least an hour beyond the session TTL, for every TTL and setting |
| `UploadCleanup.MaxAgeMeaning` | apps/api/src/core/upload/upload.cleanup.ts:36-43 | the age limit is the larger of the setting, 6 hours by default, and the TTL in hours rounded up plus one |
| `UploadCleanup.SparesUnexpiredIff` | apps/api/src/core/upload/upload.cleanup.ts:78-110 | no file of an unexpired session is removed if and only if `init` reads the clock within that slack after creating the file |
| `UploadCleanup.SparesUnexpired` | apps/api/src/core/upload/upload.cleanup.ts:78-110 | in particular a file the cleaner removes belongs to an expired session when `init` took at most an hour |
| `UploadCleanup.UploadCleanup.Clean` | apps/api/src/core/upload/upload.cleanup.ts:78-110 | removes exactly the closed `.part` files last touched longer ago than the age limit, and counts them |
| `UploadCleanup.UploadCleanup.Tick` | apps/api/src/core/upload/upload.cleanup.ts:54-62 | a tick during a running clean does nothing |
| `RefreshProtocol.RunKeeps` | apps/api/src/core/auth/refresh.service.ts:61-207 | the invariant of tokens, allow-list, consumed jtis and workers holds over every interleaving of refresh, login, revoke, session revoke and expiry, command by command |
| `RefreshTheorems.SingleUse` | apps/api/src/core/auth/refresh.service.ts:61-124 | over every interleaving each refresh token yields at most one new pair |
| `RefreshTheorems.HitsAlwaysFit` | apps/api/src/core/auth/refresh.service.ts:81-109 | an allow-list hit never fails the record and session tests for an authentic token |
| `RefreshTheorems.OverlapStepIff` | apps/api/src/core/auth/refresh.service.ts:126-138 | a step brings a jti into both lists if and only if a revoke blacklists a token whose record is still allowed, and then its own DEL had failed |
| `RefreshTheorems.ListsDisjointIff` | apps/api/src/core/auth/refresh.service.ts:126-138 | no jti is in both lists at any point of a run if and only if the run holds no such step |
| `RefreshTheorems.ListsDisjoint` | apps/api/src/core/auth/refresh.service.ts:126-138 | a jti in both lists implies that the DEL of a revoke for it failed |
| `RefreshTheorems.BlacklistBars` | apps/api/src/core/auth/refresh.service.ts:61-124 | a blacklisted token yields no pair in any continuation in which its entry lasts, unless a refresh of it was past the blacklist test before |
| `RefreshTheorems.RotationNeverMultiplies` | apps/api/src/core/auth/refresh.service.ts:154-207 | per session, live allow entries plus rotations in flight never exceed the logins for it |
| `RefreshTheorems.QuietStepIff` | apps/api/src/core/auth/refresh.service.ts:61-207 | a session with no live token and no rotation in flight stays so in every step except exactly a login for it |
| `RefreshTheorems.FlyingRevives` | apps/api/src/core/auth/refresh.service.ts:104-124 | a rotation in flight can bring a live token of the session back without any login |
| `RefreshTheorems.RevokedForGoodIff` | apps/api/src/core/auth/session/session.service.ts:263-278 | no continuation without a login gives the session a live token if and only if it has none and no rotation of it is in flight |
| `SessionRevocation.LinkRunKeeps` | apps/api/src/core/auth/session/session.service.ts:217-278 | the invariant of links, reverse entries, stored and withdrawn records and pipelines under way holds over every interleaving |
| `SessionRevocation.RevokeLeavesIff` | apps/api/src/core/auth/session/session.service.ts:263-278 | after a session revoke a record naming the session stands if and only if it was not linked when the set was read, or was stored since, and has not been withdrawn |
| `SessionRevocation.RevokeIncompleteIff` | apps/api/src/core/auth/session/session.service.ts:263-278 | with every link in place at the read, something is left exactly if a login or a rotation stored a token between the read and the end of the pipeline that still stands |
| `SessionRevocation.PairedStepIff` | apps/api/src/core/auth/session/session.service.ts:217-278 | a step leaves a reverse entry without its partner if and only if it is a pipeline deleting a set that was linked to since its read |
| `SessionRevocation.PairedIff` | apps/api/src/core/auth/session/session.service.ts:217-278 | over runs the two relations stay paired if and only if no such step occurs |
| `RefreshRuns.StaleRevoke` | apps/api/src/core/auth/session/session.service.ts:263-278 | a run in which a login links its token between a revoke's read and its pipeline: the token stays allowed and its reverse entry has no partner |
| `RefreshRuns.RefreshOutlivesRevoke` | apps/api/src/core/auth/refresh.service.ts:61-124 | a run in which a refresh in flight stores a token for a session whose revoke missed nothing |
| `RefreshRuns.FailedDelLeavesBoth` | apps/api/src/core/auth/refresh.service.ts:126-138 | a run in which a failed DEL leaves a blacklisted token on the allow-list |
| `RefreshRuns.LoneRefresh` | apps/api/src/core/auth/refresh.service.ts:61-124 | a refresh that nothing comes between, of a token in good standing: the token is blacklisted, off the allow-list and unlinked, and a fresh one of the same session is allowed and linked |
| `RefreshRuns.LoneRevoke` | apps/api/src/core/auth/refresh.service.ts:126-138 | a token revoke that nothing comes between: off the allow-list, blacklisted and unlinked, and no other key changes |
| `Sessions.SessionService.Create` | apps/api/src/core/auth/session/session.service.ts:67-94 | record, SET and ZSET entry are written together; nothing else changes |
| `Sessions.SessionService.Touch` | apps/api/src/core/auth/session/session.service.ts:196-211 | moves lastUsedAt and the score together, or refuses an unknown session |
| `SessionIndexes.RunKeeps` | apps/api/src/core/auth/session/session.service.ts:67-311 | over every interleaving of create, touch, revoke, list and expiry, command by command: the SET has no member the ZSET lacks, and scores are the records' lastUsedAt |
| `SessionIndexes.SameMembersStepIff` | apps/api/src/core/auth/session/session.service.ts:196-211 | a step leaves a ZSET member without its SET member, with no removal under way, if and only if a touch writes a session that is no longer in the SET |
| `SessionIndexes.SameMembersIff` | apps/api/src/core/auth/session/session.service.ts:196-278 | over runs SET and ZSET keep the same members if and only if no such write occurs |
| `SessionIndexes.ListedIff` | apps/api/src/core/auth/session/session.service.ts:106-278 | over runs every live session is in the SET if and only if no touch writes one that is not and no pipeline takes a live one out |
| `SessionIndexes.EndedForGoodIff` | apps/api/src/core/auth/session/session.service.ts:196-278 | no continuation makes the session live again if and only if its record is gone and no touch that read it has yet to write |
| `SessionIndexes.TouchOutlivesRevoke` | apps/api/src/core/auth/session/session.service.ts:196-278 | a run in which a session revoked between a touch's GET and its MULTI is live again, in the ZSET and not in the SET |
| `Sessions.LiveOfMeaning` | apps/api/src/core/auth/session/session.service.ts:110-127 | the read loop keeps exactly the records of the live sessions among the ids, once each |
| `Sessions.SessionService.ReadSessions` | apps/api/src/core/auth/session/session.service.ts:110-127 | splits the ids into the live records, in order, and the stale ids |
| `Sessions.SessionService.DropStale` | apps/api/src/core/auth/session/session.service.ts:129-136 | removes exactly the stale members from both indexes |
| `Sessions.SessionService.ZRevAll` | apps/api/src/core/auth/session/session.service.ts:155-159 | the members of the ZSET, once each, from the highest score down, equal scores by member descending |
| `Sessions.SessionService.List` | apps/api/src/core/auth/session/session.service.ts:106-141 | exactly the live sessions, newest first, once each; both indexes of the user are healed to exactly those |
| `Sessions.SessionService.ListPage` | apps/api/src/core/auth/session/session.service.ts:146-193 | the live sessions among the positions offset to offset + limit - 1 of the ZSET order, newest first and then by id, and no others; an absent offset is 0 and limit 20, smaller values are 0 and 1; exactly the stale members of the slice are dropped; without stale members it is that slice of the full list, up to ties |
| `Sessions.PagesListEverySession` | apps/api/src/core/auth/session/session.service.ts:146-193 | the pages at offsets 0, l, 2l, .. over an unchanged index list every live session exactly once, newest first, for every page size |
| `Sessions.NextPageSkips` | apps/api/src/core/auth/session/session.service.ts:186-193 | a page that drops s stale members makes the next page start s places too late: the s members behind it are on neither |
| `Sessions.SessionService.ZRevRange` | apps/api/src/core/auth/session/session.service.ts:155-159 | the members of the ZSET from that position on, as many as asked for or left |
| `Sessions.SessionService.ReadPage` | apps/api/src/core/auth/session/session.service.ts:161-193 | the live sessions among the ids, in order; exactly the stale ids leave both indexes |
| `Sessions.SameUpToTies` | apps/api/src/core/auth/session/session.service.ts:106-141 | two newest-first lists of the same records agree position by position, up to ties |
| `Sessions.IndexIsScan` | apps/api/src/core/auth/session/session.service.ts:146-193 | the ZSET order of a user without stale entries is the plain scan, up to ties |
| `Sessions.SessionService.LinkRefreshJti` | apps/api/src/core/auth/session/session.service.ts:217-232 | both directions are written together and stay inverse |
| `Sessions.SessionService.UnlinkRefreshJti` | apps/api/src/core/auth/session/session.service.ts:235-245 | both directions are removed together and stay inverse |
| `Sessions.SessionService.FindSessionByJti` | apps/api/src/core/auth/session/session.service.ts:248-255 | the session whose set holds the jti; none only if no set holds it or its entry expired |
| `Sessions.SessionService.RevokePipeline` | apps/api/src/core/auth/session/session.service.ts:268-277 | deletes exactly the keys of the session and of the jtis that were read |
| `Sessions.SessionService.DeleteTokens` | apps/api/src/core/auth/session/session.service.ts:267-271 | deletes exactly the reverse entries and allow records of the jtis |
| `Sessions.SessionService.RevokeRead` | apps/api/src/core/auth/session/session.service.ts:263-278 | the pipeline after a read that nothing overtook: the session and all its tokens are gone, nothing else, and every invariant holds |
| `Sessions.SessionService.Revoke` | apps/api/src/core/auth/session/session.service.ts:263-278 | the session, its index entries and all tokens in its set are gone, nothing else; an allow record naming it survives only if its link was lost or a DEL had failed |
| `Sessions.RevokedTokens` | apps/api/src/core/auth/session/session.service.ts:281-311 | which allow records go with a set of sessions, and which of theirs stay |
| `Sessions.SessionService.ReadJtis` | apps/api/src/core/auth/session/session.service.ts:285-290 | the jtis of every session, as read before any deletion |
| `Sessions.SessionService.RevokeEach` | apps/api/src/core/auth/session/session.service.ts:292-310 | the deletions of all sessions one after another equal one revoke of all of them |
| `Sessions.SessionService.RevokeAll` | apps/api/src/core/auth/session/session.service.ts:281-311 | the same for every indexed session of the user: no session of the user is live afterwards, and no other user's key changes |
| `RefreshService.TokenService.VerifyRefresh` | apps/api/src/core/auth/token/token.service.ts:197-218 | accepts exactly an authentic token that is not blacklisted, or any authentic one when the blacklist is skipped |
| `RefreshService.TokenService.BlacklistRefreshJti` | apps/api/src/core/auth/token/token.service.ts:250-254 | adds exactly that jti |
| `RefreshService.TokenService.IsRefreshBlacklisted` | apps/api/src/core/auth/token/token.service.ts:256-260 | membership in the blacklist |
| `RefreshService.RefreshService.BuildPair` | apps/api/src/core/auth/refresh.service.ts:154-207 | the signed token, the allow record if its SET succeeds, the link if it succeeds, and all invariants kept either way |
| `RefreshService.RefreshService.IssueTokensForUserId` | apps/api/src/core/auth/refresh.service.ts:53-59 | a pair exactly for an active user, with every key it writes; otherwise no key changes |
| `RefreshService.RefreshService.Refresh` | apps/api/src/core/auth/refresh.service.ts:61-124 | a new pair for the same session exactly if the token is authentic, not blacklisted, on the allow-list and the user active; every key afterwards; whatever later step fails, the token is used up |
| `RefreshService.RefreshService.Consume` | apps/api/src/core/auth/refresh.service.ts:81-119 | GETDEL, record tests, blacklisting, unlink: an allow-list hit is always accepted for the token's own session, and exactly its keys change |
| `RefreshService.RefreshService.Revoke` | apps/api/src/core/auth/refresh.service.ts:126-138 | removes, blacklists and unlinks an authentic token, each step best effort, expired and blacklisted tokens included |
| `RefreshService.RefreshService.Withdraw` | apps/api/src/core/auth/refresh.service.ts:130-137 | the three best-effort steps, each on that jti alone |
| `RefreshService.RevokeThenRefresh` | apps/api/src/core/auth/session/session.service.ts:263-278 | after a session revoke a token of the session can be refreshed if and only if it could before and its link was lost |
| `Counters.GroupPreservesSums` | apps/api/src/catalog/counters/counters.service.ts:116-124 | grouping by product preserves each key's sum, repeated keys included |
| `Counters.ApplyAddsSums` | apps/api/src/catalog/counters/counters.service.ts:126-140 | the transaction adds exactly each key's sum to its column |
| `Counters.DecrSubtractsSums` | apps/api/src/catalog/counters/counters.service.ts:103-108 | the DECRBYs subtract exactly each key's sum |
| `Counters.Conservation` | apps/api/src/catalog/counters/counters.service.ts:63-109 | over every interleaving of bumps and overlapping flushes, with repeated keys and aborted transactions: table plus Redis less committed-but-not-subtracted is the start plus everything counted |
| `Counters.ExactAtQuiescence` | apps/api/src/catalog/counters/counters.service.ts:63-109 | when no flush is between commit and subtraction the two stores hold exactly what was counted |
| `Counters.CountersService.Bump` | apps/api/src/catalog/counters/counters.service.ts:32-40 | adds delta to that key and no other, in Redis, or in the table when Redis is absent |
| `Counters.CountersService.ApplyDbIncrement` | apps/api/src/catalog/counters/counters.service.ts:112-141 | the groups' increments all or not at all |
| `Counters.CountersService.ReadPage` | apps/api/src/catalog/counters/counters.service.ts:84-95 | an update for exactly the keys with a nonzero count, and each key's count once per occurrence |
| `Counters.CountersService.Decrement` | apps/api/src/catalog/counters/counters.service.ts:103-108 | each key falls by exactly its sum |
| `Counters.CountersService.FlushBatch` | apps/api/src/catalog/counters/counters.service.ts:63-109 | exactly when it commits: every product with a nonzero key in the pages is in the table; then a key that occurs c times has c times its count moved from Redis to its column; otherwise nothing changes |
| `Counters.ScanCommitsIff` | apps/api/src/catalog/counters/counters.service.ts:112-141 | the transaction of a scan goes through if and only if every product with a nonzero count is in the table |
| `Counters.FlushInSteps` | apps/api/src/catalog/counters/counters.service.ts:63-109 | in the machine of overlapping flushes a flush that nothing comes between moves the same amounts |
| `Likes.LikeKeepsCounts` | apps/api/src/catalog/likes/likes.service.ts:48-79 | creating a like row with its increment keeps counter = number of rows |
| `Likes.UnlikeKeepsCounts` | apps/api/src/catalog/likes/likes.service.ts:48-79 | deleting one with its decrement keeps it too |
| `Likes.CounterAlwaysMatchesRows` | apps/api/src/catalog/product/product.service.ts:440-464 | with any number of toggles interleaving between lookup and transaction the counter equals the number of rows after every step |
| `Likes.LosingToggleAborts` | apps/api/src/catalog/likes/likes.service.ts:48-79 | of two toggles that saw the same state the second changes nothing |
| `Likes.WholeToggle` | apps/api/src/catalog/likes/likes.service.ts:42-80 | in the machine a toggle that nothing comes between flips its row and moves the counter by one |
| `Likes.LikesService.Toggle` | apps/api/src/catalog/likes/likes.service.ts:42-80 | flips exactly that row, with the time of a new like, moves the counter by one and reports the new state; an unknown product changes nothing |
| `Likes.LikesService.ListForUser` | apps/api/src/catalog/likes/likes.service.ts:83-133 | the items are the user's likes behind the cursor, newest first and then by product; one that is left out comes after all of them, and then the page is full; the cursor is time and product of the last item of a full page |
| `Likes.LikeListEnumerates` | apps/api/src/catalog/likes/likes.service.ts:83-133 | load-more over a fixed list lists every like exactly once, in order, for every page size |
| `Likes.LikeListUnderChange` | apps/api/src/catalog/likes/likes.service.ts:42-133 | with likes coming, going and given anew between pages no product comes twice, for every page size |
| `Likes.LikeListedIff` | apps/api/src/catalog/likes/likes.service.ts:42-133 | a product liked in every state read is listed if and only if it is not liked again between two pages from behind the cursor to before it; one whose like stays is |
| `Likes.LikedAgainIsMissed` | apps/api/src/catalog/likes/likes.service.ts:42-133 | a product liked again after the first page, on the list in both states read and on none of the pages |
| `Keyset.SortSorts` | apps/api/src/catalog/product/product.service.ts:368-377 | the query's order is a strict descending order of exactly the rows |
| `Keyset.PageMeaning` | apps/api/src/catalog/product/product.service.ts:368-377 | a page is sorted, drawn from the admitted rows and ahead of every admitted row it leaves out; a short page leaves none out |
| `Keyset.FindManyCanonical` | apps/api/src/catalog/product/product.service.ts:368-377 | a page depends on the rows, not on the order in which the table holds them |
| `Enumeration.CursorAdvances` | apps/api/src/catalog/product/product.service.ts:383-407 | every full page leaves fewer rows for the next, so load-more ends |
| `Keyset.PagesDescend` | apps/api/src/catalog/product/product.service.ts:310-407 | while rows come and go the pages read so far are strictly descending |
| `Keyset.PagesMissNothing` | apps/api/src/catalog/product/product.service.ts:310-407 | a row whose key is present in every state read is on one of the pages |
| `Keyset.LoadMoreExactlyOnce` | apps/api/src/catalog/product/product.service.ts:310-407 | with immutable keys no row comes twice and a row present throughout comes once |
| `Enumeration.EnumeratesAtLimitIff` | apps/api/src/catalog/product/product.service.ts:310-407 | for one page size: over a fixed table the pages list every row once, in order, if and only if the cursor of each row that ends a full page admits just the rows behind it |
| `Enumeration.AgreesMeaning` | apps/api/src/catalog/product/product.service.ts:324-338 | the cursor of a row does so if and only if the row is in no pair that the tie column and the ids order differently |
| `Enumeration.CollectEnumerates` | apps/api/src/catalog/product/product.service.ts:310-407 | over a fixed table following cursors yields the sorted table when sort order and cursor order agree |
| `Enumeration.EnumeratesIffAgree` | apps/api/src/catalog/product/product.service.ts:310-407 | and only then, for every page size |
| `Enumeration.AgreeMeaning` | apps/api/src/catalog/product/product.service.ts:324-338 | they agree if and only if inside each primary value the tie column follows the ids |
| `ProductListing.CursorEnumeratesExactly` | apps/api/src/catalog/product/product.service.ts:310-366 | `latest`, `viewed` and `liked` list exactly the matching products, once each, in order, for every page size |
| `ProductListing.PopularEnumeratesIff` | apps/api/src/catalog/product/product.service.ts:324-338 | `popular` does so if and only if, among equal downloads, more likes never go with a smaller id |
| `ProductListing.PopularAtPageSizeIff` | apps/api/src/catalog/product/product.service.ts:324-338 | for one page size: `popular` does so if and only if no full page ends with a product that is out of order with another |
| `ProductListing.PopularSkipsARow` | apps/api/src/catalog/product/product.service.ts:324-338 | of two products out of order, pages of one or two rows lose or repeat one, larger ones do not |
| `MovingKeys.NoneTwice` | apps/api/src/catalog/product/product.service.ts:310-407 | while rows come, go, come back and move towards the front between pages, no row is listed twice |
| `MovingKeys.ListedIff` | apps/api/src/catalog/product/product.service.ts:310-407 | a row there in every state read is listed if and only if it does not move over the cursor from behind it to before it |
| `ProductListing.ListingUnderChange` | apps/api/src/catalog/product/product.service.ts:310-366 | `latest`, `viewed` and `liked` while products come, go, change and are counted up: none twice, and exactly which of those that match throughout are listed |
| `ProductListing.LatestUnderChange` | apps/api/src/catalog/product/product.service.ts:310-322 | with `latest` each that matches throughout is listed |
| `ProductListing.LikedComesTwice` | apps/api/src/catalog/product/product.service.ts:351-366 | with `liked` a product that loses a like between two pages can come twice |
| `ProductListing.ProductService.FindAll` | apps/api/src/catalog/product/product.service.ts:275-410 | in product fields alone: the items are matching products behind the cursor, strictly descending by createdAt, downloads and likes, views, or likes, and then id; one that is left out comes after all of them, and then the page is full; the cursor is that column and the id of the last item of a full page |
| `Forest.AcyclicIffWalksEnd` | apps/api/src/catalog/categories/categories.service.ts:134-149 | the parent relation has no cycle if and only if every walk upwards ends |
| `Forest.WalkBound` | apps/api/src/catalog/categories/categories.service.ts:134-149 | in an acyclic table no walk is longer than the table |
| `Forest.ReparentAcyclicIff` | apps/api/src/catalog/categories/categories.service.ts:42-62 | a new parent keeps the table acyclic if and only if it lies outside the moved category's subtree |
| `Forest.DetachAcyclic` | apps/api/src/catalog/categories/categories.service.ts:42-62 | detaching never creates a cycle |
| `Forest.CreateAcyclic` | apps/api/src/catalog/categories/categories.service.ts:29-39 | creating under an existing category keeps the forest and every ancestor relation |
| `Forest.RemovePreservesAncestry` | apps/api/src/catalog/categories/categories.service.ts:155-174 | removal with relinking keeps the forest and, for all remaining pairs, ancestry in both directions |
| `Forest.StaleRemoveAcyclicIff` | apps/api/src/catalog/categories/categories.service.ts:155-174 | a removal with the parent read earlier closes a cycle if and only if that parent lies below the category by now |
| `Categories.PathMeaning` | apps/api/src/catalog/categories/categories.service.ts:134-149 | the breadcrumb path runs from a root to the category, parent to child |
| `Categories.PathHasNoRepeats` | apps/api/src/catalog/categories/categories.service.ts:134-149 | it lists no category twice |
| `Categories.PathIsAncestry` | apps/api/src/catalog/categories/categories.service.ts:134-149 | what lies on it is exactly the category and its ancestors |
| `Categories.ChildrenMeaning` | apps/api/src/catalog/categories/categories.service.ts:104-124 | a child list holds exactly the rows with that parent, the roots exactly those with none |
| `Categories.ChildrenOrder` | apps/api/src/catalog/categories/categories.service.ts:104-124 | a child list is in row order |
| `Categories.RootsOrder` | apps/api/src/catalog/categories/categories.service.ts:104-124 | and so are the roots |
| `Categories.SubtreeExactlyOnce` | apps/api/src/catalog/categories/categories.service.ts:104-131 | the node of a category unfolds to it and everything below it, once each, and nothing else |
| `Categories.TreeExactlyOnce` | apps/api/src/catalog/categories/categories.service.ts:104-131 | the whole tree lists every category exactly once |
| `Categories.BreadcrumbsLieInTree` | apps/api/src/catalog/categories/categories.service.ts:104-149 | every breadcrumb path is a root-to-node path in the tree |
| `Categories.UpdateCanCloseACycle` | apps/api/src/catalog/categories/categories.service.ts:50-54 | moving a root under its own child is accepted and closes a cycle |
| `Categories.StaleRemoveClosesACycle` | apps/api/src/catalog/categories/categories.service.ts:155-174 | two moves that each keep a forest, between the read and the transaction of a removal, and the cycle it then closes |
| `Categories.WalkIsPath` | apps/api/src/catalog/categories/categories.service.ts:137-147 | the walk upwards of the loop, reversed, is the path |
| `Categories.CategoriesService.Create` | apps/api/src/catalog/categories/categories.service.ts:29-39 | adds exactly that link, or fails on an unknown parent; a forest stays one |
| `Categories.CategoriesService.Update` | apps/api/src/catalog/categories/categories.service.ts:42-62 | sets exactly that link; a forest stays one if and only if the new parent is outside the moved subtree |
| `Categories.CategoriesService.RemoveTransaction` | apps/api/src/catalog/categories/categories.service.ts:162-173 | exactly when it succeeds with a parent read earlier, the links afterwards, and when a forest stays one |
| `Categories.CategoriesService.Remove` | apps/api/src/catalog/categories/categories.service.ts:155-174 | children move to the removed category's parent, its product links go; a forest stays one with the same ancestry |
| `Categories.CategoriesService.Breadcrumbs` | apps/api/src/catalog/categories/categories.service.ts:134-149 | with enough turns the root-to-self path, or nothing for an unknown id; no number of turns is enough exactly when the walk never reaches a root |
| `Categories.CategoriesService.Tree` | apps/api/src/catalog/categories/categories.service.ts:104-131 | every category's child list holds exactly the rows with that parent, the roots exactly those with none, in row order, or the one requested root |
| `Otp.BlockMeansNoCode` | apps/api/src/core/auth/otp/otp.service.ts:186-211 | over every run of whole calls: while a block is live there is no active code |
| `Otp.NoCodeDuringBlock` | apps/api/src/core/auth/otp/otp.service.ts:349-408 | no code is issued during a block, although a resend with an active hash never tests it |
| `Otp.CodeUseBounded` | apps/api/src/core/auth/otp/otp.service.ts:191-236 | over runs of whole calls each code yields at most one ticket and is compared at most maxAttempts times, once more only when a comparison came after its key had gone |
| `OtpProtocol.OwnComparisonsBounded` | apps/api/src/core/auth/otp/otp.service.ts:191-216 | over every interleaving of request, resend and verify calls, command by command, no code is compared more than maxAttempts times while attempts are counted on its own hash |
| `OtpProtocol.SecondTicketIff` | apps/api/src/core/auth/otp/otp.service.ts:186-236 | a code that yielded a ticket yields another in some continuation if and only if a second call read its hash in time and holds the right guess |
| `OtpProtocol.TwoTickets` | apps/api/src/core/auth/otp/otp.service.ts:186-236 | a run in which two calls hand out two tickets for one code |
| `OtpProtocol.LoneVerify` | apps/api/src/core/auth/otp/otp.service.ts:166-236 | a verify that nothing comes between: within the limit one comparison, and a ticket exactly for the right code; beyond it the hash goes and the block starts |
| `OtpProtocol.LoneRequest` | apps/api/src/core/auth/otp/otp.service.ts:96-164 | a request that nothing comes between issues a code exactly if there is no block and no cooling code |
| `OtpProtocol.LoneResend` | apps/api/src/core/auth/otp/otp.service.ts:349-424 | a resend that finds a hash issues a code exactly if it is not cooling down, block or not |
| `OtpProtocol.BlockHoldsIff` | apps/api/src/core/auth/otp/otp.service.ts:96-424 | during a block no code is issued, in any continuation in which it lasts, if and only if there is no active hash, no verify that has read one and not counted, and no request past the block test that has not issued |
| `OtpProtocol.BlockStartsSealedIff` | apps/api/src/core/auth/otp/otp.service.ts:202-211 | the MULTI that blocks leaves it so exactly if no such call is under way |
| `OtpProtocol.CodeDuringBlock` | apps/api/src/core/auth/otp/otp.service.ts:166-424 | a run in which a verify that read the hash before the block counts after it and a resend issues a code |
| `Otp.OverrunIff` | apps/api/src/core/auth/otp/otp.service.ts:191-216 | the limit is exceeded by exactly the calls that read an exhausted live key and count after it has gone |
| `Otp.LimitHoldsIff` | apps/api/src/core/auth/otp/otp.service.ts:191-216 | over whole runs every code stays within the limit if and only if no such call occurs |
| `Otp.OverrunHappens` | apps/api/src/core/auth/otp/otp.service.ts:191-216 | a run in which one attempt is allowed and two comparisons are made |
| `Otp.TicketNeedsLastCode` | apps/api/src/core/auth/otp/otp.service.ts:191-236 | a ticket needs the code issued last, before its time is up, and is the first for it |
| `Otp.VerifyAnswers` | apps/api/src/core/auth/otp/otp.service.ts:166-252 | over every run, from the history alone: an admitted verify outside a block gets a ticket if and only if the guess is the code issued last, without a ticket, late comparison or closing verify, its key and time are not up at the read, and its attempt, one more than the comparisons so far or the first if the key has gone when counted, is within the limit; which refusal otherwise, and what the call adds to the history |
| `Otp.VerifyRefused` | apps/api/src/core/auth/otp/otp.service.ts:166-193 | without admission, during a block or with no code issued a verify is refused, and without admission or during a block it changes nothing |
| `Otp.RequestAnswers` | apps/api/src/core/auth/otp/otp.service.ts:96-164 | over every run, from the history alone: a request is refused, answered from the cooling code with the seconds left, or issues a code, and exactly when |
| `Otp.ResendAnswers` | apps/api/src/core/auth/otp/otp.service.ts:349-424 | the same for a resend, which passes by the block while a code is kept |
| `Otp.IssuesAreSpaced` | apps/api/src/core/auth/otp/otp.service.ts:112-148 | while a code is unsolved the next comes no earlier than its cooldown or its lifetime |
| `Otp.BlockNeedsExhaustion` | apps/api/src/core/auth/otp/otp.service.ts:202-211 | a block begins only after exactly maxAttempts comparisons, with the configured deadline |
| `Otp.BlockLasts` | apps/api/src/core/auth/otp/otp.service.ts:112-114 | until that deadline no call changes any key, so nothing is issued or compared |
| `Otp.OtpService.RequestOtp` | apps/api/src/core/auth/otp/otp.service.ts:96-164 | keys and answer as the request step says, for that subject alone |
| `Otp.OtpService.ResendOtp` | apps/api/src/core/auth/otp/otp.service.ts:349-424 | keys and answer as the resend step says, for that subject alone |
| `Otp.OtpService.VerifyOtp` | apps/api/src/core/auth/otp/otp.service.ts:166-252 | keys and answer as the verify step of the runs says, a stored ticket exactly on success, for that subject alone |
| `Otp.OtpService.IssueNewCode` | apps/api/src/core/auth/otp/otp.service.ts:257-283 | replaces the whole hash with its TTL and starts the cooldown, for that subject alone |
| `RateLimit.AtMostMaxPerWindow` | apps/api/src/core/auth/refresh-rate-limit.service.ts:27-43 | no life of the key lets more than max hits through, for any interleaving of INCR and EXPIRE, lost EXPIREs included |
| `RateLimit.IntervalBound` | apps/api/src/core/auth/refresh-rate-limit.service.ts:27-43 | every interval of one window's length lets at most 2*max-1 hits through |
| `RateLimit.IntervalBoundAttained` | apps/api/src/core/auth/otp/otp-rate-limit.service.ts:36-46 | and that bound is attained for every limit and window |
| `RateLimit.RefusedIff` | apps/api/src/core/auth/refresh-rate-limit.service.ts:27-43 | a hit is refused if and only if its key is alive with at least max hits of its life, where a key without deadline waits for its EXPIRE and a deadline is one window after an EXPIRE of the run |
| `RateLimit.BumpIsTwoSteps` | apps/api/src/core/auth/otp/otp-rate-limit.service.ts:36-46 | a whole `bump` is one INCR step and, for the call that got 1, one EXPIRE step |
| `RateLimit.OtpRateLimitService.Bump` | apps/api/src/core/auth/otp/otp-rate-limit.service.ts:36-46 | counts that key only, starting at 1 with a fresh window when it is gone, and returns the count |
| `RateLimit.OtpRateLimitService.ConsumeBuckets` | apps/api/src/core/auth/otp/otp-rate-limit.service.ts:54-143 | the identifier's bucket always counts, the address's only if the first let the call through; refused exactly if a count exceeds its maximum |
| `RateLimit.RefreshRateLimitService.Consume` | apps/api/src/core/auth/refresh-rate-limit.service.ts:27-43 | counts that key only and refuses exactly beyond the maximum |

## Left out

- Clock values of the lock (lease length, deadline and pauses of the spin loop): a lease may end and a waiting call may give up at any time.
- In the step machine the clean-up of an expired session, like an abort and the expiry of the key, is the record vanishing at any point.
- UploadService.UploadService.MustGetActive: the clean-up of an expired session, which nobody waits for, is over when the call returns.
- UploadRecord.CeilDivMeaning: exact arithmetic; the rounding of floating-point division is not modelled, here and in the percentage.
- Record fields that no decision reads (file name, temp path, error code, hash), progress events, public URLs and remote directories.
- Redis TTL values are modelled for the upload record, the one-time password and the limiters only; expiry of any other key is an event that may happen at any time.
- The fallback of `patch` for a store without CAS: the shipped store has one.
- Sessions with their indexes and tokens with their links are interleaved command by command in two separate machines; both together appear in whole calls.
- Signing, hashing, content sniffing, cursor encoding and duration parsing: verdicts, injective maps, key pairs and numbers.
- The allow record `'1'`: it parses as JSON, so the branch for it is not reached.
- Categories.CategoriesService.Breadcrumbs: the rows are read from one state of the table; the code reads each with its own query.
- Categories.CategoriesService.Tree: gives child lists instead of nodes that share references; what they unfold to is stated separately.
- Category writes are whole transactions; of reads before them only the parent in `remove` is taken from an earlier state.
- Otp.OtpService.RequestOtp: the limiter's verdict is a parameter; delivery may fail after the keys are written. Configured durations are whole and positive.
- Clock values of interleaved one-time-password calls: cooldown, lifetime and block may end at any time; in runs of whole calls they are exact.
- Commands fail only where a parameter says so; a release of the lock and a clean-up of the sniff whose Redis command fails are not modelled.
- Product update, bookmarks, downloads, full-text filters, users, roles, mail, SMS, websockets, controllers and wiring: plumbing, or the shape of a service already modelled.
- Row locks and isolation levels of the database beyond atomic transactions with key conflicts.
