# Bilinc: a verified model of the hosted memory lifecycle

Bilinc is a versioned memory store for agents. This project models the parts of it that carry a protocol or an index
that must agree with something simpler, and proves those agreements for all inputs, all runs and all interleavings.

- `Audit.dfy`, `AuditProtocol.dfy`: the append-only hash chain whose rows can be emptied behind a receipt, first as one
  process's class, then as any number of processes that interleave appends with the steps of purges and crash anywhere.
- `JsonText.dfy`, `FieldBinding.dfy`: the texts `json.dumps` writes, and which fields of a row a valid root binds.
- `Runtime.dfy`: one hosted project (stored entries, audit log, snapshot files, revision log) as a class. Each mutation
  under the project's lock is also a list of indivisible effects; the methods are proved to perform just those.
- `ReplayAgreement.dfy`: over any run the log, replayed, is the store; a rollback leaves the snapshot.
- `PurgeFinality.dfy`: what a purge leaves (nothing) and that it stays so until the key is committed afresh.
- `RollbackProtocol.dfy`: previews read without the lock, so their reads interleave with the single effects of locked
  requests; an execute bound to a preview's root still meets the state that preview described.
- `Leases.dfy`, `Cursors.dfy`, `History.dfy`, `PageWalk.dfy`: plane leases and eviction, the cursor codec, the history
  window, and the client's adaptive walk over a store that changes between pages.
- `EmbeddingIndex.dfy`, `KnowledgeGraph.dfy`, `Traversal.dfy`, `Islands.dfy`, `VectorCache.dfy`, `BeliefSync.dfy`,
  `TimeIntent.dfy`: the indexer racing with edits, the graph's dependent indices and its search, the islands, the bounded
  vector cache, belief gossip, and the calendar windows with the UTC+14 pre-check.
- `IndexingRules.dfy`, `GraphRules.dfy`, `BeliefRules.dfy`, `TimeWindows.dfy`: the rules of these, each told from the
  entries, edges, texts or calendar days alone.
- `KeyOrder.dfy`, `Sequences.dfy`, `Wrappers.dfy`: sorted key lists, prefixes, option and result types.

`dafny verify dfyconfig.toml` checks the whole project.

## How the system is represented

- A SHA-256 digest (FIPS 180-4, section 6.2) is a free constructor: equal digests come from equal inputs and the genesis
  root is never a link. A stored digest no hash produced is `Foreign`.
- A JSON column is its text together with the receipt items in it; a timestamp is its printed form together
  with its place in time, and any stamps at all may follow one another. Clocks, fresh identifiers, AGM's verdict on a
  belief and whether AGM recorded it are inputs of a request.
- Entry states are opaque texts with equality, and an expected version stands for the one state it was computed from.
  Snapshot files hold entry states in the same normal form as the store.
- A zone is a function from readings of its wall clock to offsets. A reading carries Python's `fold`, so the two passes
  through a repeated hour can differ: a midnight set on now keeps the pass of now, one reached by counting days is in its
  first.
- Characters are Unicode scalar values. Reals stand for float stamps; rounding plays no part.
- Sets that Python enumerates in no fixed order are enumerated in key order here; no result depends on it.

## What the proofs found

- An admitted rollback always meets the store its preview described. The key lists can still differ from the previewed
  ones: the bound root covers the store, not the snapshot file, and a purge that completes between the preview's read of
  the file and its read of the head scrubs the file. `RollbackProtocol.AdmittedRollbackIsTheOnePreviewed` gives the exact
  condition on the requests served, `RollbackProtocol.PreviewCanPromiseAPurgedKey` the schedule.
- The docstring of `iter_memories` promises every stored memory. A page that ends at a key that is itself an order
  payload cannot be continued, and callers can store such a key: `PageWalk.PayloadKeyStopsTheWalk`. A page that ends at
  the empty key, whose cursor is the empty string, reads as the last page; the public routes refuse empty keys
  (`src/bilinc/cloud/service.py`, line 52, and `src/bilinc/client.py`, line 223), other writers need not.
  `PageWalk.FullWalkExactlyWhen` says exactly for which keys the promise holds, whatever is written between the pages.
- The comment above the UTC+14 pre-check says a date is never still ahead there. 29 February can be gone instead, as it
  is in the last fourteen hours of each leap year: `TimeIntent.LeapDayIsLost`. And the start of "since 0001-01-01" has no
  UTC time in that zone, so the pre-check raises where UTC would answer: `TimeIntent.FirstDayRaises`. These two, and the
  last hours of year 9999, are all there is from year 3 on: `TimeIntent.PreCheckDropsFromYear3`.
- Windows run forwards exactly in zones that keep their midnights in order: `TimeIntent.WindowsEndByNowExactly`. A clock
  that skips a midnight breaks it, as Toronto's did on 31 March 1919, when 23:30 was followed by 00:30:
  `TimeIntent.SkippedMidnightBreaksOrder`.
- `merge_sync` of two equally reliable agents swaps their conflicting values: `BeliefSync.MergeEmptiesDivergence`.
- The data hash is taken of the fields joined by colons. Among rows of the form `log` writes it binds every field,
  whatever the keys hold, because JSON texts do not run on: `FieldBinding.RootBindsFields`. A tampered copy that is no
  such row can have other fields and the same root: `FieldBinding.RootDoesNotBindFields`.

## Model

| member | source | states |
|---|---|---|
| `Audit.PurgeReceiptTargets` | src/bilinc/core/audit.py:55-68 | the loop collects, per row id, the hash and receipt of the last receipt item naming it |
| `Audit.TargetsMeaning` | src/bilinc/core/audit.py:55-68 | each target comes from a receipt that names exactly that id and hash, and every id a receipt names has a target |
| `Audit.VerifyChain` | src/bilinc/core/audit.py:71-115 | valid exactly when every row verifies; otherwise the first failing row is named with the right error; the stored root is the head, the mismatch flag tells exactly whether the roots differ, and the purged rows counted are those read by their receipts |
| `Audit.RowVerifiesExactlyWhen` | src/bilinc/core/audit.py:80-104 | what the check asks of one row, in full: the chained root, and the hash of the colon-joined text shown or, without values, one that a later receipt names |
| `Audit.LastItemDecides` | src/bilinc/core/audit.py:55-68 | of all receipt items naming a row, the last of the last receipt decides |
| `Audit.RootBindsLog` | src/bilinc/core/audit.py:71-115 | two logs that verify and end in one root have the same length and data hashes, and the same hashed text at every row neither treats as purged |
| `FieldBinding.HashedTextBindsFieldsExactly` | src/bilinc/core/audit.py:49-52 | rows with the same hashed text agree in every field exactly when no field of one, with a colon after it, begins that field of the other |
| `FieldBinding.WrittenFieldsAreBound` | src/bilinc/core/audit.py:180-188 | rows of the form `log` writes (plain operation and number, JSON values, any key) give back every field from their hashed text |
| `FieldBinding.RootBindsFields` | src/bilinc/core/audit.py:71-115 | two logs that verify and end in one root agree field by field, at every row neither treats as purged, exactly under that condition; so wherever both rows have the form `log` writes |
| `FieldBinding.TrailWrites` | src/bilinc/core/audit.py:180-188 | what `log` and a purge append has that form |
| `FieldBinding.RootDoesNotBindFields` | src/bilinc/core/audit.py:49-52 | the condition can fail: a row `log` wrote and a copy with the colon moved have one root, both verify, and their values differ |
| `JsonText.DumpsIsEnclosed` | src/bilinc/core/audit.py:181-182 | in every text `json.dumps` writes, brackets and strings close and each colon is inside one of them |
| `JsonText.DumpsIs` | src/bilinc/core/audit.py:181-182 | the texts of `json.dumps`, constructor by constructor, with its separators |
| `JsonText.EscapeIs` | src/bilinc/core/audit.py:181-182 | its string escapes: short ones, printable ASCII as it is, UTF-16 units in hexadecimal else |
| `JsonText.NameAndTextsComeBack` | src/bilinc/core/audit.py:187 | a name with any colons in it and three such texts come back from their joined text |
| `Audit.PrevRootAndMetadataUnchecked` | src/bilinc/core/audit.py:71-115 | changing `prev_root` and `metadata` anywhere changes no verdict |
| `Audit.EmptiedRowsNeedReceipts` | src/bilinc/core/audit.py:85-104 | emptying rows of a valid log keeps it valid exactly when each row is intact or trusted through a later receipt |
| `Audit.EmptiedWithoutReceiptFails` | src/bilinc/core/audit.py:85-104 | a row emptied with no later receipt naming its exact id and data hash fails, and so does the whole chain |
| `Audit.PurgedLogMeaning` | src/bilinc/core/audit.py:246-280 | a purge empties exactly the value-bearing rows of the key, keeps everything else, and appends one receipt naming exactly those rows with their hashes; with nothing to empty it changes nothing |
| `Audit.PurgeEmptiesRows` | src/bilinc/core/audit.py:254-279 | row by row: a row of the key with a value, no receipt itself, loses its values and is stamped; every other row stays |
| `Audit.PurgeAppendsReceipt` | src/bilinc/core/audit.py:261-266 | when there is something to empty one receipt is chained on the head, with the next id and its own text hashed |
| `Audit.PurgeReceiptNames` | src/bilinc/core/audit.py:264 | the receipt lists exactly the emptied rows by id and data hash, oldest first |
| `Audit.PurgeOfNothing` | src/bilinc/core/audit.py:259-260 | with nothing to empty a purge writes nothing |
| `Audit.ReceiptText` | src/bilinc/core/audit.py:264 | the text of the receipt: one list, an object with an id and a data hash per emptied row |
| `Audit.DecimalIs` | src/bilinc/core/audit.py:264 | ids are written in decimal |
| `Audit.ReplayIsStateAtTheEnd` | src/bilinc/core/audit.py:305-329 | replay at any time at or after the last row is the fold of the whole log |
| `Audit.LastRowDecides` | src/bilinc/core/audit.py:305-329 | at any time the newest row about a key that creates, changes or removes entries decides alone whether it is there and with what value |
| `Audit.UnwrittenKeyIsAbsent` | src/bilinc/core/audit.py:305-329 | a key that nothing created or changed by then is absent |
| `Audit.PurgeHidesOneKeyAtEveryTime` | src/bilinc/core/audit.py:305-329 | a purge leaves the replay at every timestamp with the same keys and the same values of all other keys, and no value under the purged one |
| `Audit.AuditTrail.Log` | src/bilinc/core/audit.py:165-221 | appends one row with the next id, chained on the stored head and not on the cached one |
| `Audit.AuditTrail.VerifyIntegrity` | src/bilinc/core/audit.py:223-233 | valid exactly when the stored chain verifies |
| `Audit.AuditTrail.HasPurgeableRows` | src/bilinc/core/audit.py:235-244 | true exactly when some stored row of the key still carries a value and is no receipt |
| `Audit.AuditTrail.PurgeKey` | src/bilinc/core/audit.py:246-280 | the table becomes the purged log; the count is that of the rows emptied; the cached head moves only when something was emptied |
| `Audit.AuditTrail.GetStateAt` | src/bilinc/core/audit.py:305-329 | the loop computes the replay of all rows stamped at or before the time |
| `Audit.AuditTrail.RefreshRootHash` | src/bilinc/core/audit.py:335-346 | returns and caches the stored head |
| `AuditProtocol.StepSound` | src/bilinc/core/audit.py:246-280 | every step of any process (append, select, receipt, empty one row, refresh, crash) keeps the log sound and only ever adds rows or removes values |
| `AuditProtocol.StepsAre` | src/bilinc/core/audit.py:165-280 | the steps one by one, and that each depends on the state of its own process and the next free id alone |
| `AuditProtocol.EveryRunIsSound` | src/bilinc/core/audit.py:165-280 | the invariant holds after every interleaving of any number of processes |
| `AuditProtocol.SoundLogVerifies` | src/bilinc/core/audit.py:71-115 | a sound log passes the check, also where two receipts name the same row |
| `AuditProtocol.EveryRunVerifies` | src/bilinc/core/audit.py:71-115 | after every interleaving the log verifies, ids strictly increase, no receipt is emptied, and every receipt item names an earlier row with its unchanged data hash |
| `AuditProtocol.HistoryOnlyGrows` | src/bilinc/core/audit.py:246-280 | along every run each row keeps its place, id, key, operation, time, hashes and roots for ever, receipts keep everything, and values change only by being removed |
| `AuditProtocol.ValuesLeaveOnlyBehindReceipts` | src/bilinc/core/audit.py:246-280 | a row whose text no longer has its hash is blank and named by a later receipt |
| `AuditProtocol.CachedRootsArePastHeads` | src/bilinc/core/audit.py:335-346 | a cached root may be stale but is always a root the chain once had |
| `AuditProtocol.UninterruptedPurge` | src/bilinc/core/audit.py:246-280 | `purge_key` without interruption is one schedule of the protocol steps |
| `Runtime.Plane.CommitEntry` | src/bilinc/cloud/runtime.py:779-843 | the new state is that of serving the commit: refused when `if_absent` finds the key, else stored and logged as CREATE or UPDATE with the prior state |
| `Runtime.Plane.ReviseEntry` | src/bilinc/cloud/runtime.py:1104-1314 | the new state is that of serving the revision: refused on a missing key or another version; a winner is saved, and logged only when it differs |
| `Runtime.Plane.ConfirmEntry` | src/bilinc/cloud/runtime.py:1147-1204 | the new state is that of serving the confirmation: the touched entry is saved and logged as a confirmed UPDATE |
| `Runtime.Plane.CheckForget` | src/bilinc/cloud/runtime.py:1347-1359 | the refusals of a forget, in order: a snapshot file that cannot be scrubbed before a purge, other version, nothing there and nothing left to purge |
| `Runtime.Plane.ForgetEntry` | src/bilinc/cloud/runtime.py:1318-1384 | the new state is that of serving the forget; a refused one changes nothing |
| `Runtime.Plane.RemoveStored` | src/bilinc/cloud/runtime.py:1361-1371 | drops the entry and logs the two FORGET rows, the second without values |
| `Runtime.Plane.PurgeStored` | src/bilinc/cloud/runtime.py:1413-1464 | the revision log is redacted, then the audit rows are purged, then the snapshot files are scrubbed |
| `Runtime.Plane.ScrubSnapshots` | src/bilinc/cloud/runtime.py:1452-1463 | the loop rewrites every snapshot file that holds the key without it |
| `Runtime.Plane.SaveSnapshot` | src/bilinc/cloud/runtime.py:1526-1557 | the new file holds the whole store |
| `Runtime.Plane.RollbackExecute` | src/bilinc/cloud/runtime.py:1713-1812 | refused when the snapshot cannot be read or the head is not the expected one; else the reported created, updated and deleted keys are exactly those by which the store and the snapshot differ |
| `Runtime.Plane.DropExtra` | src/bilinc/cloud/runtime.py:1745-1757 | the first loop drops and logs exactly the extra keys, ascending |
| `Runtime.Plane.RestoreMissing` | src/bilinc/cloud/runtime.py:1759-1782 | the second loop saves and logs each entry that differs, and sorts its key under created or updated |
| `Runtime.Plane.RollbackPreview` | src/bilinc/cloud/runtime.py:1666-1708 | head, exact counts, key lists cut at the bound and `truncated` of a preview that nothing interrupts, and when it is refused with what |
| `Runtime.RollbackPerforms` | src/bilinc/cloud/runtime.py:1741-1798 | the two loops perform exactly the listed effects, and what they report is what differs |
| `RequestEffects.AdmittedExactlyWhen` | src/bilinc/cloud/runtime.py:779-1812 | each kind of request is admitted exactly when: its new key is free; its stored entry is the expected one; a purge of an absent key finds a valued row that is no receipt, or a snapshot entry, and no unreadable file; a rollback finds a file to load and the expected head |
| `RequestEffects.RefusedWith` | src/bilinc/cloud/runtime.py:779-1812 | the error of each refused request; it changes nothing |
| `RequestEffects.StaleVersionChangesNothing` | src/bilinc/cloud/runtime.py:1353-1354 | a revision, confirmation or forget of a stored key that expects another entry is refused and changes nothing |
| `RequestEffects.CommitEffect` | src/bilinc/cloud/runtime.py:779-843 | store, log, files and revision log after a commit, written out: one row with the prior and the new state |
| `RequestEffects.ReviseEffect` | src/bilinc/cloud/runtime.py:1104-1314 | the same after a revision: the winner is stored, and logged only when it differs |
| `RequestEffects.ConfirmEffect` | src/bilinc/cloud/runtime.py:1147-1204 | the same after a confirmation |
| `RequestEffects.ForgetEffect` | src/bilinc/cloud/runtime.py:1318-1464 | the same after a forget: the two rows it logs, and with a purge the emptied rows, the redacted revision log and the scrubbed files |
| `RequestEffects.WithoutKeepsTheRest` | src/bilinc/cloud/runtime.py:1413-1464 | redacting the revision log keeps its other records in order |
| `RequestEffects.SnapshotEffect` | src/bilinc/cloud/runtime.py:1526-1557 | a new file holds the whole store and nothing else changes |
| `RequestEffects.RestoreEffect` | src/bilinc/cloud/runtime.py:1740-1798 | a rollback leaves exactly the snapshot stored, every earlier row, and one row per key it changed and one for itself |
| `RequestEffects.RestoreDeletes` | src/bilinc/cloud/runtime.py:1745-1757 | its i-th row is the deletion of the i-th extra key with the entry that went |
| `RequestEffects.RestoreWrites` | src/bilinc/cloud/runtime.py:1759-1782 | then the creation or update of the i-th changed key, with what was there and what came |
| `RequestEffects.RestoreRecords` | src/bilinc/cloud/runtime.py:1745-1757 | the revision log gains just the deleted keys AGM had cached, and keeps its newest thousand records |
| `ReplayAgreement.ServeConsistent` | src/bilinc/cloud/runtime.py:779-1812 | no request, admitted or refused, makes the replay of the log and the store disagree, or the log fail its check |
| `ReplayAgreement.ReplayIsTheStore` | src/bilinc/core/audit.py:305-329 | after any run of commits, revisions, confirmations, forgets, purges, snapshots and rollbacks, reading back the replay of the whole log gives exactly the stored map, and the log verifies |
| `ReplayAgreement.StoredEntryComesBack` | src/bilinc/core/audit.py:181-182 | the text a row stores for an entry gives that entry back |
| `ReplayAgreement.SameReplaySameStore` | src/bilinc/core/audit.py:305-329 | two runs whose logs replay alike have stored the same |
| `ReplayAgreement.PurgedLogSound` | src/bilinc/core/audit.py:246-280 | a purge keeps the whole log invariant, by being one of the protocol's schedules |
| `ReplayAgreement.RollbackRestores` | src/bilinc/cloud/runtime.py:1740-1782 | the final store of an admitted rollback is the snapshot, and no snapshot file changed |
| `PurgeFinality.ScrubbedFiles` | src/bilinc/cloud/runtime.py:1452-1463 | scrubbing takes exactly the key out of each file that holds it and leaves every other file alone |
| `PurgeFinality.PurgeLeavesNothing` | src/bilinc/cloud/runtime.py:1348-1384 | after an admitted purge no stored entry, no valued audit row, no snapshot entry and no revision record is left under the key |
| `PurgeFinality.ServeClean` | src/bilinc/cloud/runtime.py:779-1812 | no request but a commit of the key brings a value of it back |
| `PurgeFinality.StaysClean` | src/bilinc/cloud/runtime.py:779-1812 | so no sequence of them does, rollbacks to any snapshot included; and every other request about the key is refused |
| `PurgeFinality.PurgeIsFinal` | src/bilinc/cloud/runtime.py:1318-1384 | along every run, from an admitted purge until the next commit of the key, nothing holds a value under it and every other request about it is refused |
| `PurgeFinality.FileKept` | src/bilinc/cloud/runtime.py:1452-1463 | a request changes a snapshot file only by purging one key out of it or by writing that very snapshot |
| `PurgeFinality.RollbackRestoresTheSnapshot` | src/bilinc/cloud/runtime.py:1740-1782 | a rollback brings back exactly what was stored when the snapshot was taken, less the keys purged since |
| `RollbackProtocol.PlanSettled` | src/bilinc/cloud/runtime.py:1104-1812 | every change of the store is followed by an audit row before the lock is released |
| `RollbackProtocol.ChangesAreLogged` | src/bilinc/cloud/runtime.py:1104-1812 | the same of the plan itself: each store or removal in it has an audit row after it |
| `RollbackProtocol.StepsAre` | src/bilinc/cloud/runtime.py:1679-1694 | the steps one by one: when a request takes the lock, its single effects, and the three reads of a preview in their order |
| `RollbackProtocol.PurgedSinceMeans` | src/bilinc/cloud/runtime.py:1413-1464 | the keys purged since a request are those of the later admitted purges |
| `RollbackProtocol.DepthCountsRows` | src/bilinc/core/audit.py:196-210 | the root of a sound log counts its rows, so a head that was left never returns |
| `RollbackProtocol.EveryRunIsSound` | src/bilinc/cloud/runtime.py:1683-1694 | the invariant over every interleaving of unlocked previews with the effects of locked requests |
| `RollbackProtocol.UninterruptedRequest` | src/bilinc/cloud/runtime.py:122-147 | a request nobody interrupts is one schedule and does what serving it says |
| `RollbackProtocol.LockedRequestsAreSerial` | src/bilinc/cloud/runtime.py:122-147 | between requests the state is that of serving them one after another, however previews interleave; the log then replays to the store |
| `RollbackProtocol.AdmittedRollbackIsTheOnePreviewed` | src/bilinc/cloud/runtime.py:1736-1740 | an execute bound to a preview's root is admitted only on the very store the preview described and leaves the entries the preview read less the keys purged since; the reported keys are the previewed ones exactly when no request served since purged one of those entries |
| `RollbackProtocol.PreviewCanPromiseAPurgedKey` | src/bilinc/cloud/runtime.py:1679-1687 | a schedule in which that condition fails: a purge completes between the preview's reads of the snapshot and of the head |
| `Leases.ProjectRuntimeManager.StartCall` | src/bilinc/cloud/runtime.py:104-106 | one more call in flight, counted exactly, and a fresh stamp |
| `Leases.ProjectRuntimeManager.FinishCall` | src/bilinc/cloud/runtime.py:107-117 | one call fewer; stamps are kept for just the projects loaded or in flight |
| `Leases.ChooseVictims` | src/bilinc/cloud/runtime.py:658-669 | all expired idle planes, then the oldest of the others while the cap is exceeded |
| `Leases.ProjectRuntimeManager.EvictIdle` | src/bilinc/cloud/runtime.py:652-671 | the victims leave and no plane with a call in flight does; counts stay exact |
| `Leases.ProjectRuntimeManager.GetPlane` | src/bilinc/cloud/runtime.py:590-642 | the asked plane is loaded; after a capped load the planes fit the cap, or only planes in flight and the new one remain |
| `Leases.EvictionIsDetermined` | src/bilinc/cloud/runtime.py:658-669 | idle, all that expired, as many more as the cap asks for, oldest first by (stamp, project): this fixes the victims |
| `Leases.EvictsMeans` | src/bilinc/cloud/runtime.py:658-669 | who goes, plane by plane: only idle ones, all expired ones, and none last used after one that stays |
| `Leases.EvictsAsMany` | src/bilinc/cloud/runtime.py:664-669 | how many go: the expired ones, and as many more as the cap asks for |
| `Leases.AccountedMeans` | src/bilinc/cloud/runtime.py:104-117 | the counts are the calls in flight and stamps are kept for just the planes loaded or in flight |
| `Leases.CapHolds` | src/bilinc/cloud/runtime.py:664-669 | after a capped round at most the cap remains, or only planes in use |
| `Cursors.Utf8RoundTrip` | src/bilinc/cloud/runtime.py:358-359 | strict UTF-8 decoding gives back every encoded text |
| `Cursors.Utf8AcceptsExactlyEncodings` | src/bilinc/cloud/runtime.py:358-382 | it accepts exactly the encodings, and each only as the text it encodes |
| `Cursors.OctetsRoundTrip` | src/bilinc/cloud/runtime.py:358-359 | base64url sextets give back every byte string |
| `Cursors.CharBytes` | src/bilinc/cloud/runtime.py:358-359 | the bytes of each character by the UTF-8 table of RFC 3629, section 3 |
| `Cursors.SextetsAreTheBits` | src/bilinc/cloud/runtime.py:358-359 | the sextets are the bits of the bytes, six at a time, zero bits behind the last |
| `Cursors.AlphabetIs` | src/bilinc/cloud/runtime.py:358-359 | the URL-safe alphabet of RFC 4648, section 5 |
| `Cursors.CursorRoundTrip` | src/bilinc/cloud/runtime.py:358-382 | every non-empty key comes back from its cursor |
| `Cursors.DecodeAcceptsExactlyEncodings` | src/bilinc/cloud/runtime.py:365-382 | a text is accepted exactly when it is the cursor of a non-empty key, and then gives that key |
| `Cursors.CursorsAreInjective` | src/bilinc/cloud/runtime.py:358-359 | different keys have different cursors |
| `Cursors.DecoderAloneIsLenient` | src/bilinc/cloud/runtime.py:365-382 | left-over bits and a final newline are read over by the decoder, and refused only by the comparison with the re-encoded key |
| `Cursors.OrderCursorRoundTrip` | src/bilinc/cloud/runtime.py:387-419 | an order cursor gives back its finite stamp and key under its own order and is refused under every other, the key order included |
| `Cursors.OrderCursorsAreExactlyPayloads` | src/bilinc/cloud/runtime.py:400-419 | a string is accepted as an order cursor, with this stamp and key, exactly when it encodes a text that reads as a three-field payload of that order with this finite stamp and this non-empty key |
| `Cursors.KeysThatContinue` | src/bilinc/cloud/runtime.py:1036-1040 | a key-ordered listing can continue after a key exactly when the key is not empty and not itself an order payload |
| `History.HistoryRecords` | src/bilinc/cloud/runtime.py:445-498 | the loop gives one record per row, except the core's half of a forget |
| `History.RecordsRowByRow` | src/bilinc/cloud/runtime.py:445-470 | what each row adds to the records, and that a row counts as forgotten exactly when it or a newer one is a FORGET |
| `History.NewestTurnsAround` | src/bilinc/core/audit.py:282-303 | the rows of a key come latest first |
| `History.PublicRecord` | src/bilinc/cloud/runtime.py:473-497 | the record of one row field by field: values only when they may be shown, and which flag says why not |
| `History.GetHistory` | src/bilinc/core/audit.py:282-303 | the newest rows of the key, up to the limit |
| `History.History` | src/bilinc/cloud/runtime.py:943-976 | the page is the newest `bound` records of the whole history, `truncated` tells exactly whether there are more, and only a page of several records can be refused as too large |
| `History.WindowIsExact` | src/bilinc/cloud/runtime.py:958-968 | reading only 2 * (bound + 1) rows gives the same page and flag as reading them all |
| `History.NoForgottenValueIsShown` | src/bilinc/cloud/runtime.py:445-498 | a record carries a value exactly when its row has one to show and neither it nor a newer row is a FORGET; PURGE records never do |
| `History.EveryRowIsReported` | src/bilinc/cloud/runtime.py:460-470 | every row is reported, except the second half of a forget right after its reported first half |
| `PageWalk.ListMemories` | src/bilinc/cloud/runtime.py:1031-1099 | the page is the first entries strictly after the cursor at that moment |
| `KeyOrder.LessIsLexicographic` | src/bilinc/storage/sqlite.py:1252-1256 | the key order: a proper prefix first, else by the first code point that differs |
| `KeyOrder.SortSorts` | src/bilinc/cloud/runtime.py:1689-1695 | a sorted list holds every key once, ascending in that order |
| `PageWalk.PageIs` | src/bilinc/cloud/runtime.py:1052-1085 | the page in full: the first stored keys after the cursor by code points, with a cursor for the last when there are more, unless several are too large |
| `PageWalk.NoPageIs` | src/bilinc/cloud/runtime.py:1036-1040 | a cursor gets no page exactly when the listing refuses it |
| `PageWalk.PageHolds` | src/bilinc/cloud/runtime.py:1052-1058 | a page ascends from the cursor and holds stored entries |
| `PageWalk.PageSkipsNothing` | src/bilinc/cloud/runtime.py:1052-1085 | a stored key past the cursor is on the page, or past its last key when more is to come |
| `PageWalk.IterMemories` | src/bilinc/client.py:809-844 | the loop does the specified walk; keys come strictly ascending by code points, each entry was stored at one of the requests, and a walk that finished from the start missed no key stored at all of them |
| `PageWalk.Sizes` | src/bilinc/client.py:809-812 | the sizes asked for: the page size, ten when that is smaller, and one |
| `PageWalk.WalkGoesOn` | src/bilinc/client.py:813-844 | how the walk goes on after each kind of answer: a smaller size after a page too large, a larger one after a page that fits, the end after an empty cursor |
| `PageWalk.NotSeen` | src/bilinc/client.py:838-843 | the next cursor is never one seen before |
| `PageWalk.NeverFailsOnSize` | src/bilinc/client.py:826-829 | the walk never raises on size, a page of one entry being always returned whole |
| `PageWalk.WalkAscends` | src/bilinc/client.py:809-844 | keys come strictly increasing, so none twice, whatever sizes the walk steps through |
| `PageWalk.WalkListsStoredEntries` | src/bilinc/client.py:809-844 | every listed entry was stored, with that value, at one of the walk's requests |
| `PageWalk.FinishedWalkMissesNothing` | src/bilinc/client.py:809-844 | a finished walk listed every entry that was stored at each of its requests, while others came and went |
| `PageWalk.FinishesExactlyWhen` | src/bilinc/client.py:809-844 | a walk finishes exactly when its start is accepted and no page with more to come ends at the empty key or at a key that is an order payload |
| `PageWalk.EveryPageSizeFinishesExactlyWhen` | src/bilinc/client.py:809-844 | over an unchanging store walks finish at every page size exactly when no key but the last is empty or an order payload |
| `PageWalk.PayloadKeyStopsTheWalk` | src/bilinc/client.py:809-844 | on any store of two keys whose first is an order payload, the walk one entry at a time lists that one and is refused |
| `PageWalk.OrderCursorTextStopsWalks` | src/bilinc/cloud/runtime.py:387-429 | the text of every order cursor is such a key |
| `PageWalk.FullWalkExactlyWhen` | src/bilinc/client.py:809-844 | the full walk over a changing store: for all servers whose keys come from a given set, every walk of every page size lists all that stays stored, ascending, and ends by itself, exactly when no key of the set but the last is empty or an order payload |
| `PageWalk.EmptyKeyCutsTheWalkShort` | src/bilinc/client.py:836-837 | a concrete store on which the walk returns normally after one of two entries |
| `EmbeddingIndex.EmbeddingDaemon.IndexOnce` | src/bilinc/embeddings/daemon.py:127-192 | the table, the failures and the report after one pass |
| `EmbeddingIndex.EncodeBatch` | src/bilinc/embeddings/daemon.py:140-162 | the loop over the batch: what was embedded, which keys wait how long, when it stops |
| `EmbeddingIndex.EmbeddingDaemon.Commit` | src/bilinc/embeddings/daemon.py:170-175 | rewrites just the keys whose text is still the embedded one |
| `EmbeddingIndex.TodoMeaning` | src/bilinc/embeddings/daemon.py:134-138 | the keys to do are exactly the wanted ones with missing or old vectors and not in backoff, each once |
| `IndexingRules.WantedIs` | src/bilinc/embeddings/daemon.py:127-131 | wanted are exactly the scanned memories in scope that have a text |
| `IndexingRules.ToDoIs` | src/bilinc/embeddings/daemon.py:134-138 | to do are exactly the wanted keys whose stored fingerprint is another and that do not wait after a failure on that very text |
| `IndexingRules.OneAttempt` | src/bilinc/embeddings/daemon.py:143-162 | one attempt: vectors end the wait, a rejection starts one and the third in a row ends the pass, an outage ends it and says nothing about the key |
| `IndexingRules.BackoffDoubles` | src/bilinc/embeddings/daemon.py:157-158 | the waits after rejections in a row: one minute, doubled each time, up to an hour |
| `IndexingRules.EncodesInOrder` | src/bilinc/embeddings/daemon.py:143-162 | keys are encoded in order until the pass stops |
| `EmbeddingIndex.PassIsSafe` | src/bilinc/embeddings/daemon.py:163-180 | whatever was edited during encoding, a pass writes vectors only for the text stored at commit time, and they are the encoder's output for that text; other models' rows are gone |
| `IndexingRules.WritesOnlyCurrentText` | src/bilinc/embeddings/daemon.py:163-180 | the same told from the stored texts and the encoder's answers alone |
| `IndexingRules.KeptOrUpdated` | src/bilinc/embeddings/daemon.py:170-180 | a wanted key keeps its vectors unless it was embedded from the text still stored, and then they are up to date |
| `EmbeddingIndex.PassKeepsFailuresNotIndexed` | src/bilinc/embeddings/daemon.py:132-162 | no key waits to retry a text its vectors already are of, under any concurrent edits |
| `EmbeddingIndex.ReportedCountIsExact` | src/bilinc/embeddings/daemon.py:182-191 | with no concurrent writer `indexed` is exactly the number of wanted memories whose vectors are up to date, failures, backoff and outages included |
| `IndexingRules.ReportIs` | src/bilinc/embeddings/daemon.py:182-191 | the other counts of the report: vectors written, keys not reached, keys waiting |
| `EmbeddingIndex.PassShrinksBacklog` | src/bilinc/embeddings/daemon.py:127-192 | a pass without edits or failures, once no key has to wait, leaves `keys_per_pass` fewer keys to do, or none |
| `EmbeddingIndex.PassesConverge` | src/bilinc/embeddings/store.py:38-41 | from any state a run can reach, enough such passes after the waiting keys' deadlines make the index exactly the in-scope texts |
| `IndexingRules.IndexBecomesTheTexts` | src/bilinc/embeddings/store.py:38-41 | the same told from the table alone: every wanted key with its own fingerprint, and no other key |
| `IndexingRules.EachPassShrinksTheBacklog` | src/bilinc/embeddings/daemon.py:127-192 | and each pass leaves exactly `keys_per_pass` fewer of them behind |
| `KnowledgeGraph.KnowledgeGraph.AddRelation` | src/bilinc/core/knowledge_graph.py:223-249 | appends the edge to list and index and creates missing nodes |
| `KnowledgeGraph.KnowledgeGraph.HasRelation` | src/bilinc/core/knowledge_graph.py:256-268 | true exactly when such an edge is in the list |
| `KnowledgeGraph.KnowledgeGraph.IndexMemoryEntities` | src/bilinc/core/knowledge_graph.py:281-287 | the memory gains these entities, no other memory changes, and all indices stay in step |
| `KnowledgeGraph.KnowledgeGraph.RebuildNormalizedEntityIndex` | src/bilinc/core/knowledge_graph.py:289-293 | a memory is under a folded name exactly when some entity of that name is linked to it |
| `KnowledgeGraph.KnowledgeGraph.RebuildRelationIndex` | src/bilinc/core/knowledge_graph.py:251-254 | each key lists its edges in order |
| `GraphRules.IndicesMean` | src/bilinc/core/knowledge_graph.py:281-293 | indices in step: an entity lists a memory exactly when the memory lists it, and a folded name exactly when some entity of that name does |
| `GraphRules.RelationsMean` | src/bilinc/core/knowledge_graph.py:251-254 | the edges of a key are those between its nodes and of its kind, in list order |
| `KnowledgeGraph.KnowledgeGraph.QueryMemoriesByEntity` | src/bilinc/core/knowledge_graph.py:295-300 | the sorted, limited set of memories with some entity equal to the name up to case |
| `KnowledgeGraph.KnowledgeGraph.MemoryEntities` | src/bilinc/core/knowledge_graph.py:309-313 | the sorted entities of the memory, those whose sets hold it |
| `KnowledgeGraph.KnowledgeGraph.RemoveEntity` | src/bilinc/core/knowledge_graph.py:162-175 | the node, its edges and its links as an entity go, and nothing else of any memory |
| `KnowledgeGraph.KnowledgeGraph.RemoveNodes` | src/bilinc/core/knowledge_graph.py:177-192 | the same for several nodes at once |
| `GraphRules.UntouchedMeans` | src/bilinc/core/knowledge_graph.py:177-192 | the edges left are those that touch no removed node, in order |
| `KnowledgeGraph.KnowledgeGraph.RemoveRelation` | src/bilinc/core/knowledge_graph.py:335-347 | all matching edges leave list and index |
| `GraphRules.NotBetweenMeans` | src/bilinc/core/knowledge_graph.py:335-347 | the edges left are all but those between the two nodes in that direction, of the given kind if one is given |
| `KnowledgeGraph.KnowledgeGraph.ForgetMemory` | src/bilinc/core/knowledge_graph.py:194-219 | the node, edges and links of the key go, with the entities only it named that are no memories; other memories keep all entities but the key |
| `GraphRules.DoomedMeans` | src/bilinc/core/knowledge_graph.py:194-219 | which nodes go: the memory's own, and the entities linked to it alone unless they are memories |
| `GraphRules.LinksAfter` | src/bilinc/core/knowledge_graph.py:194-219 | which links are left after members went, or after a key gained some |
| `KnowledgeGraph.ForgottenLeavesNothing` | src/bilinc/core/knowledge_graph.py:194-219 | a forgotten key that had a node is on no edge and in no index, as key or as member |
| `KnowledgeGraph.KnowledgeGraph.LinkSharedMemories` | src/bilinc/core/knowledge_graph.py:519-542 | the added edges are cross links from the memory, no two alike and none that was there, each to one of the first linked memories in order, and all of those are linked |
| `GraphRules.LinkedMeans` | src/bilinc/core/knowledge_graph.py:519-535 | which memories these are: those under the first shared entities in order, so many of each as the cap allows, until there are enough |
| `KnowledgeGraph.UncappedLinksAll` | src/bilinc/core/knowledge_graph.py:519-535 | where no cap bites they are exactly the other memories that share an entity |
| `KnowledgeGraph.KnowledgeGraph.IngestMemoryEntry` | src/bilinc/core/knowledge_graph.py:472-546 | the edges added, one by one: from the memory to each candidate, then to each pair's key in order, then the cross links; none without a key; nodes, their kinds and properties exactly; the memory gains exactly the extracted entities; the counts reported |
| `KnowledgeGraph.NotedIsLast` | src/bilinc/core/knowledge_graph.py:508-517 | of several pairs with one key the last gives the value |
| `KnowledgeGraph.KnowledgeGraph.ImportFromJson` | src/bilinc/core/knowledge_graph.py:564-602 | nodes and edges as given; a memory is linked to an entity exactly when an imported related_to edge leads from its fact node to that entity's node |
| `GraphRules.ImportedLink` | src/bilinc/core/knowledge_graph.py:585-602 | when an import ties an entity to a memory: a `related_to` edge from the one's fact node to the other's entity node |
| `Traversal.Traverse` | src/bilinc/core/knowledge_graph.py:361-396 | the found nodes are those within the limit, each once, nearest first; the edges are the filter-passing out-edges of those below it, in order |
| `Traversal.TraversalNodes` | src/bilinc/core/knowledge_graph.py:361-396 | the nodes are those some path of at most the limit of edges leads to, each once, nearest first |
| `Traversal.TraversalDepths` | src/bilinc/core/knowledge_graph.py:370-375 | the depth of a node is the length of a shortest path to it |
| `Traversal.TraversalEdges` | src/bilinc/core/knowledge_graph.py:377-386 | the edges node by node and successor by successor, and when one passes the filter |
| `Traversal.NearerIsFound` | src/bilinc/core/knowledge_graph.py:366-389 | when nothing nearer waits in the queue, everything nearer has been found |
| `Traversal.FirstTakenIsExact` | src/bilinc/core/knowledge_graph.py:370-375 | a node is taken for the first time at its exact distance |
| `Traversal.WithinIsPathLength` | src/bilinc/core/knowledge_graph.py:361-396 | within k is being reached by a path of at most k edges |
| `Traversal.FilterOnlyDropsEdges` | src/bilinc/core/knowledge_graph.py:377-386 | the edges of a filtered search are the passing ones of the unfiltered search, in order |
| `Traversal.FilterDoesNotLimitNodes` | src/bilinc/core/knowledge_graph.py:377-389 | searches with different filters find the same nodes |
| `Islands.FillIsland` | src/bilinc/core/blind_spots.py:157-169 | the flood of one unvisited node is exactly its weakly connected component |
| `Islands.FindIslands` | src/bilinc/core/blind_spots.py:150-171 | the islands are pairwise disjoint, cover all listed nodes, and each is the weakly connected component of one of them, targets outside the list included |
| `Islands.IslandIsComponentOfItsNodes` | src/bilinc/core/blind_spots.py:150-171 | an island is the component of every one of its nodes |
| `Islands.ConnectedMeans` | src/bilinc/core/blind_spots.py:150-171 | connected means by a path whose steps are edges one way or the other |
| `VectorCache.SemanticCache.Trim` | src/bilinc/core/vector_search.py:103-109 | drops the oldest entries until both bounds hold |
| `VectorCache.SemanticCache.SemanticCacheGet` | src/bilinc/core/vector_search.py:112-127 | a hit is the last vector put for the key and becomes the newest entry; the byte counter stays the sum |
| `VectorCache.SemanticCache.SemanticCachePut` | src/bilinc/core/vector_search.py:130-150 | the put entry becomes the newest and the rest is trimmed; an oversized one is not kept |
| `VectorCache.GetLeaves` | src/bilinc/core/vector_search.py:112-127 | a read trims first; a hit is the answer and becomes the newest entry, a miss moves nothing |
| `VectorCache.PutLeaves` | src/bilinc/core/vector_search.py:130-150 | a put replaces the key's entry and trims, or only drops it when the new one is too large |
| `VectorCache.PopOldest` | src/bilinc/core/vector_search.py:103-109 | the loop leaves the trimmed list and its byte sum |
| `VectorCache.TrimKeepsLongestFittingEnd` | src/bilinc/core/vector_search.py:103-109 | what is left is the longest end of the list within both bounds |
| `VectorCache.NewestSurvives` | src/bilinc/core/vector_search.py:147-150 | a newest entry that fits by itself survives its own trim |
| `VectorCache.CallsKeepBounds` | src/bilinc/core/vector_search.py:112-150 | after each call both bounds hold, and a vector that fits is the newest right after its put |
| `VectorCache.EndAfterUse` | src/bilinc/core/vector_search.py:122-149 | a use keeps the cache an end of the unbounded recency list |
| `VectorCache.MissingAreOlder` | src/bilinc/core/vector_search.py:103-109 | a key in the recency list and not in the cache was used before every cached key |
| `BeliefSync.BeliefSyncEngine.InitSync` | src/bilinc/core/belief_sync.py:76-85 | a new agent starts empty, reliability clamped to 0..1; a known one stays as it is |
| `BeliefSync.BeliefSyncEngine.PullUpdates` | src/bilinc/core/belief_sync.py:166-211 | the agent ends with the newest of its own and the sources' entries, the first source winning ties; each replacement ticks its key's clock and is counted once; nobody else changes; without arguments it is a pull from all others |
| `BeliefSync.PullSource` | src/bilinc/core/belief_sync.py:185-199 | one source: newer entries are taken, each counted once and ticking its key's clock once |
| `BeliefRules.PullTakesNewer` | src/bilinc/core/belief_sync.py:185-199 | under each key: taken when there is none or an older one and it is not before the cut, with one tick |
| `BeliefRules.PullEndsWithNewest` | src/bilinc/core/belief_sync.py:180-199 | along all sources the newest of its own and theirs wins, its own on a tie, then the earlier source's |
| `BeliefRules.PulledUnderEachKey` | src/bilinc/core/belief_sync.py:166-211 | and that is what a pull leaves under each key, with as many ticks as takes |
| `BeliefRules.PullCountsPerSource` | src/bilinc/core/belief_sync.py:166-211 | the count adds up the keys each source replaced |
| `BeliefSync.BeliefSyncEngine.MergeSync` | src/bilinc/core/belief_sync.py:215-285 | each agent is offered what the other held at the start, with the right side winning; pushed, pulled and conflicting entries, revisions, syncs and clock ticks are counted exactly; the two then differ exactly when they had a conflict at equal reliability |
| `BeliefSync.OfferEntries` | src/bilinc/core/belief_sync.py:238-269 | one direction: missing keys are added, conflicts go to the winner; exact counts and ticks |
| `BeliefRules.MergeLeaves` | src/bilinc/core/belief_sync.py:230-269 | under each key of the two: missing entries are taken, and on another value that of an agent at least as reliable; third agents stay as they are |
| `BeliefRules.MergeReports` | src/bilinc/core/belief_sync.py:215-285 | the counts reported and the agents' own counters, as sizes of the sets of missing and conflicting keys |
| `BeliefRules.MergeTicks` | src/bilinc/core/belief_sync.py:238-269 | the clock of every key missing or in conflict ticks, no other |
| `BeliefSync.BeliefSyncEngine.GetDivergence` | src/bilinc/core/belief_sync.py:371-414 | lists exactly the keys where two agents differ, with both values |
| `BeliefRules.DivergenceLists` | src/bilinc/core/belief_sync.py:371-414 | which keys are listed, with which status and values |
| `BeliefSync.MergeEmptiesDivergence` | src/bilinc/core/belief_sync.py:230-269 | a merge leaves no difference exactly when reliabilities differ or there was no conflict; with equal ones the conflicting values are swapped |
| `BeliefRules.MergeSettlesExactly` | src/bilinc/core/belief_sync.py:230-269 | the same told from the agents' entries alone |
| `BeliefSync.PullsConverge` | src/bilinc/core/belief_sync.py:180-199 | once every agent has pulled from all others, in any order, each holds a newest entry of every key anyone had |
| `BeliefRules.EveryoneGetsTheNewest` | src/bilinc/core/belief_sync.py:180-199 | the same told from the agents' entries alone |
| `BeliefSync.PullsEmptyDivergence` | src/bilinc/core/belief_sync.py:371-414 | then all pairwise divergences are empty, provided the newest entries agree in value |
| `TimeIntent.DateRoundTrip` | src/bilinc/core/time_intent.py:154-158 | day numbers and calendar dates are in bijection |
| `TimeWindows.DatesAdvance` | src/bilinc/core/time_intent.py:154-158 | days follow one another through the Gregorian months from 1 January of year 1 |
| `TimeWindows.WeekdaysAdvance` | src/bilinc/core/time_intent.py:127-128 | day 1 is a Monday and after Sunday comes Monday |
| `TimeWindows.LastDays` | src/bilinc/core/time_intent.py:140-146 | "last n days" starts at the same time of day, n calendar days earlier |
| `TimeWindows.LastWeeks` | src/bilinc/core/time_intent.py:140-146 | "last n weeks" 7 * n calendar days earlier |
| `TimeWindows.LastHours` | src/bilinc/core/time_intent.py:190-196 | "last n hours" counts hours, 24 of them to the day; a bare "lately" is the last day; counts run from 1 to 366 |
| `TimeWindows.DayRules` | src/bilinc/core/time_intent.py:165-171 | today from its midnight, yesterday from the one before to it |
| `TimeWindows.WeekRules` | src/bilinc/core/time_intent.py:174-179 | this week from its Monday, the last one up to there |
| `TimeWindows.WeekdayRule` | src/bilinc/core/time_intent.py:149-151 | "since Friday" from the last Friday's midnight, today's if it is one |
| `TimeWindows.MonthRules` | src/bilinc/core/time_intent.py:182-187 | this month from its 1st, the last one from its own 1st to there |
| `TimeWindows.IsoRule` | src/bilinc/core/time_intent.py:215-217 | "since" a date from its midnight, when there is such a date and it is not to come |
| `TimeWindows.DayMonthRule` | src/bilinc/core/time_intent.py:220-227 | a day and month: this year's date, or last year's when this year's is to come |
| `TimeIntent.CalendarStarts` | src/bilinc/core/time_intent.py:123-151 | weeks start on the last Monday, months on their 1st, and the month before on its own 1st |
| `TimeIntent.WindowsEndByNowExactly` | src/bilinc/core/time_intent.py:161-232 | every rule's window runs forwards and ends by now exactly when the zone keeps its past midnights before now and in order |
| `TimeIntent.FixedZonesKeepOrder` | src/bilinc/core/time_intent.py:123-151 | zones a fixed time ahead of UTC do |
| `TimeIntent.SkippedMidnightBreaksOrder` | src/bilinc/core/time_intent.py:165-166 | zones whose clock skips a midnight do not: "today" asked ten minutes later starts twenty minutes after it ends |
| `TimeIntent.WindowsEndByNow` | src/bilinc/core/time_intent.py:320-352 | so does the window of every answer |
| `TimeIntent.ParseTimeIntent` | src/bilinc/core/time_intent.py:320-352 | the first explicit match that yields, else the first implicit one unless the text is cumulative; it raises when a matching builder, the local time or the chosen window leaves years 1 to 9999 |
| `TimeWindows.ExplicitMatchDecides` | src/bilinc/core/time_intent.py:320-352 | which explicit match decides, and the window it then is in UTC, or the error when it leaves the calendar |
| `TimeWindows.ImplicitMatchDecides` | src/bilinc/core/time_intent.py:320-352 | when an implicit one does |
| `TimeWindows.NothingDecides` | src/bilinc/core/time_intent.py:320-352 | when there is no answer |
| `TimeWindows.AnyOverflowRaises` | src/bilinc/core/time_intent.py:320-352 | when it raises whatever else matches |
| `TimeIntent.YieldsInEarliestZone` | src/bilinc/core/time_intent.py:215-227 | a rule yields in a zone and not in UTC+14 exactly for 29 February asked in a leap year that UTC+14 has left |
| `TimeIntent.OverflowIsEarly` | src/bilinc/core/time_intent.py:123-232 | a builder that runs off the start of the calendar does so on every earlier clock too |
| `TimeIntent.PreCheckDropsExactly` | src/bilinc/cloud/runtime.py:894-906 | the pre-check fails a query that the zone answers exactly when UTC+14 has left year 9999, or a lost leap day is the only explicit period and nothing implicit stands in, or the period that decides there starts on 1 January of year 1 |
| `TimeIntent.FirstDayMustBeAsked` | src/bilinc/core/time_intent.py:154-232 | from year 3 on only "since 0001-01-01" starts on that day |
| `TimeIntent.PreCheckDropsFromYear3` | src/bilinc/cloud/runtime.py:894-906 | from year 3 on the condition is on the matches alone: UTC+14 has left year 9999, or a lost leap day is all that is asked, or "since 0001-01-01" comes before all else that yields there |
| `TimeIntent.PreCheckNeverDrops` | src/bilinc/cloud/runtime.py:894-906 | from year 3 on a query that asks for neither and that its zone answers passes the pre-check |
| `TimeIntent.LeapDayIsLost` | src/bilinc/cloud/runtime.py:894-906 | in the last fourteen hours of every leap year "since 29 February" is answered in UTC and finds nothing in UTC+14 |
| `TimeIntent.LeapDayIsLostIn2024` | src/bilinc/cloud/runtime.py:894-906 | such as at noon of 31 December 2024 |
| `TimeIntent.FirstDayRaises` | src/bilinc/cloud/runtime.py:894-906 | at any time "since 0001-01-01" is answered in UTC and the pre-check raises |

## Left out

- Storage engines, SQL, files, HTTP, authentication, quotas and secret scanning: tables are sequences or maps, and each
  transaction is one step. The Postgres audit trail keeps the same append and purge contract.
- Failures between a store save and its audit row: the replay and preview theorems assume that a request that began
  finishes. Crashes inside the audit trail's own purge are modelled in `AuditProtocol`.
- Runtime.Plane: the event ledger, claims, mentions, working memory and the per-plane knowledge graph that the same
  mutations also update are not part of the state; nor is the AGM decision itself.
- Runtime.Plane.SaveSnapshot: time, counts by type and label of a snapshot are not kept, only entries and root.
- Runtime.Plane: a snapshot file whose `snapshot` is no object, on which a load fails with an unforeseen error, counts as
  unreadable. `diff`, which compares as a preview does, is not modelled.
- AuditProtocol.EveryRunVerifies: each row is emptied by its own step, as each `UPDATE` is; in `RollbackProtocol` a whole
  purge of the audit rows is one effect, since its single steps change neither store nor head.
- Leases.ProjectRuntimeManager.EvictIdle: closing the evicted planes, shutdown and `purge_project` (which removes a plane
  under its own lease) are outside; the order of victims in the returned list is not modelled.
- History.History, PageWalk.ListMemories: the response size limit is measured on JSON text, which is abstract here; it is
  an arbitrary predicate on the page.
- PageWalk.ListMemories: entries stand for those matching the filters; `total` and the update-time orders are left out.
- Cursors.OrderCursorRoundTrip: JSON reading is abstract; the writer and reader are asked to agree on this one payload.
- FieldBinding.WrittenFieldsAreBound: that a number's text holds only digits, signs, dots and exponents is the form of
  Python's `repr`, not derived; object keys are strings.
- EmbeddingIndex.EmbeddingDaemon.IndexOnce: all chunks of one key are one unit, the fingerprint of a text is the text,
  and the count of removed rows is not reported. The hosted indexer's scheduling over tenants
  (`src/bilinc/embeddings/hosted.py`) is left out.
- KnowledgeGraph.KnowledgeGraph.RemoveRelation: the networkx copy, which drops one edge where the list drops all that
  match, appears only as the answer of `has_edge`; text extraction and case folding are inputs.
- Traversal.Traverse: the final look-up of node records is left out; edges carry only their relation type.
- BeliefSync.BeliefSyncEngine.PullUpdates: the time of the last sync, the sync log, push and consensus are left out.
- TimeIntent.ParseTimeIntent: pattern matching and the residual query are left out: which rules match, in order, is an
  input.
- The context assembler (`src/bilinc/core/context_assembler.py`), decay formulas, rerankers and consolidation statistics
  are not modelled.
