# Verification of the index queue, the object storage and the quota ledger

This project models three parts of the backend in Dafny and proves what they promise.

**The index queue.** Each row of `file_index_links` is a `Link`; the table is the class
`LinkRepository.Repository`, changed in place by the request path's marks, by claims and by
`apply_transition`. `SyncJob.IndexSyncJob` follows the sync job method by method, writing the row as
it goes; every answer of the outside world (success, HTTP error, outage, lost reply, absent object,
any other exception) is an input. `SyncSpec.Process` is one step as a table over the row's state and
those answers. The job is proved to compute that table; `StepOutcome` says from the row and the
answers alone which calls a step makes, which state follows and what each column holds, and
`AfterMarks` what the job asks of the index after each mark. The properties of whole runs are proved
about the table: a rank that falls with every step and a run that attains it, a drain bound without
starvation, what each column means in every reachable row, and, beside a ghost index whose replies
may be lost, that no row ever owns two live entries and none is orphaned. `RagRuns` follows that
index through overwrites, removals and new files.

**The storage layer.** `ObjectStore` is the S3 adapter, call by call, over a bucket whose calls may
fail at any point: multipart uploads from arbitrary chunks, copies by ranges, renames, deletes,
directory markers and listings. `ObjectStoreSpec` says what each leaves behind, `ObjectTree` reads
the flat keys as a tree, and `DirectoryWalk`, over the path strings of `WalkPaths`, collects a
directory for an archive. `EncryptedStream` is the framing and the buffering reader,
`EncryptedNames` the encrypted entry names down to the base64 bits, `EncryptedTree` what resolves
over such names, `EncryptedAdapter` the encrypting adapter on top of the S3 adapter,
`EncryptedListing` what its listings show, `PrivateWalk` what a download collects from them, and
`EncryptedMoves` what a rename or an upload through `.tmp` leaves to be read. `ArchiveJob` archives
one record over the whole disk.

**The quota ledger.** `StorageLedger` relates the three running counters of each user to the sums over
that user's active file records, through uploads, overwrites, deletes, recursive deletes, zip
extraction, generated runs, renames, archiving and private resets. `OrdinaryRuns` says which runs
keep the books through archiving and resets, `StorageLimit` what the guards keep within the limits,
whether or not the counters are right, and `DirectoryRename` which records still name their objects
after a directory was renamed. `FileTransactions` is the
service that performs them step by step with a rollback when a step raises. `LikePattern` is the
pattern its directory queries match. `Backfill` is the paged enqueueing of records that have no row
yet.

Instants are whole microseconds, identifiers are natural numbers, a path is a string or its
segments, and AES-GCM is a pair of functions with its laws (`EncryptedStream.Lawful`).

## Where the code falls short of its promise

Each of these is a theorem with the exact condition.

- A private reset (`StorageLedger.ResetKeepsLedger`) clears the private counter but marks only COMMITTED
  records deleted: the ledger survives exactly when no archived private record has bytes. The archive job looks
  for a private record at its plain path (`ArchiveJob.ArchiveRecord`) and finds an object only if that path is
  empty or its first name, without `.zst` suffixes and blanks at its end, is nothing, `.`, `.tmp`, `.marker`, or
  an encrypted name (`ArchiveJob.FoundIsReserved`, `ArchiveJob.ReservedByFirstName`). Runs that give no private
  file such a path keep the ledger (`OrdinaryRuns.PrivateRunKeepsLedger`); once one with bytes is archived, the
  next reset breaks it (`OrdinaryRuns.ArchivedThenReset`), as a private file called `.marker` shows
  (`OrdinaryRuns.MarkerBreaksReset`).
- Writing or renaming over an existing logical path of an encrypted section
  (`EncryptedTree.AddKeepsDistinct`, `EncryptedTree.RenameKeepsDistinct`) draws a new encrypted name, so the
  path then has two entries: siblings stay distinct exactly when there was none before.
- Renaming an entry (`EncryptedTree.RenameResolves`) makes a directory above it vanish when nothing else,
  not even its own marker, lies below that directory.
- Record queries by directory (`LikePattern.PrefixSelectsItsOwn`) pass the path to LIKE unescaped: they select
  the directory's own records exactly when its path has no `_` and no `%`, so a recursive delete of `a_b` also
  deletes the records below `axb`. The ledger still holds, because it releases what it deleted.
- After a directory rename by path in a plain section every record names the bytes it named before exactly when
  each of them stays, which can be read off the records and keys before the rename
  (`DirectoryRename.RenameKeepsRecords`). A record does not stay in five cases. With a file `a` beside `a/b` the
  object at `a` moves alone: the record at `a` keeps its path, `a/b` gets a new one, and the object at the new path
  is replaced. An object at a destination is replaced, so that records at `a/x` and `b/x` end with one path. An
  object moved to the key of another that moves is deleted there. An archived record below keeps its path while
  its object moves. And an old path with `_` or `%` gives new paths to records beside it
  (`DirectoryRename.RepathedFollows`). With none of these all stay (`DirectoryRename.OrdinaryRename`).
- The same rename re-keys the rows of the records below the new path, so those of files archived there before: such
  a row is claimed again, finds no object and fails without its entry being deleted (`RowInvariant.RevivedOnlyBy`,
  `RowInvariant.RekeyedArchiveFails`).
- A listing of an encrypted directory (`EncryptedListing.List`) shows two files, or two directories, of one name
  exactly when two in it have encrypted names of that name; a file and a directory may share a name. A download of
  such a directory (`PrivateWalk.CollectDirectory`) holds an archive name twice exactly when one of the directories
  listed has such a pair, and everything readable below once each when none in the section has.
- A directory rename (`ObjectStoreSpec.RenameKeepsEverything`) keeps every object, each at its own key or at
  its destination, exactly when no object stands at any destination; renaming back
  (`ObjectStoreSpec.RenameBack`) restores the store exactly when nothing stood at, or for a directory below,
  the new key.
- Normalizing a key (`StoragePaths.NormalizingTwice`) strips blanks before leading slashes, so it is idempotent
  exactly when, among the segments of the path so stripped that are neither empty nor `.`, the first does not
  begin with a blank and the last does not end with one.
- Collecting a directory for a zip (`DirectoryWalk.CollectDirectory`) normalizes each path it recurses into. It
  returns every visible entry exactly when each directory that shows something has a path that normalizing
  leaves alone; the content of a directory whose name ends in a blank is missing
  (`DirectoryWalk.TrailingBlankIsMissed`).
- A registration whose reply was lost leaves an entry the row does not know. Over runs, a removal that settles
  leaves nothing in the index if the row's latest registration call was answered with an id
  (`RagRuns.AnsweredRemovalIsComplete`), and an overwrite is safe under the same condition
  (`RagRuns.RunKeepsAccounts`). After an unanswered call the index may have made an entry that outlives the
  file, or be orphaned by new content: one call is safe whatever the index did exactly when it was answered
  (`RagRuns.OnlyAnsweredNeverLeaks`, `RagRuns.OnlyAnsweredNeverOrphans`, with a concrete run in
  `RagOwnership.LostReplyThenDeleteLeaks`).

## Model

| member | source | states |
|---|---|---|
| RegistrationAgreement.PreviewKeyRecognized | backend/app/domain/indexing.py:135-137 | Every preview key the decision builds passes the sync job's test for preview keys |
| RegistrationAgreement.Proposed | backend/app/domain/indexing.py:150-185 | Which of document, image, preview and skip a public record gets by section, extension and size, with which content type, skip code, hash and key |
| RegistrationAgreement.PrivateIsRefused | backend/app/domain/indexing.py:160-161 | Exactly the private and the encrypted records are refused as such |
| RegistrationAgreement.PreviewKeysApart | backend/app/domain/indexing.py:135-137 | No two files of 128-bit ids, whoever owns them, share a preview key |
| RegistrationAgreement.RefusedOnlyWithoutPath | backend/app/domain/indexing.py:103-125 | A public record is refused exactly when its path is empty and the path itself would be sent; every other decision meets the constraints decisions check on themselves |
| RegistrationAgreement.JobFollowsDecision | backend/app/application/indexing/sync_job.py:252-272 | A row queued from a decision to send is dispatched to the matching registration once its object is there and never dropped as unsupported; a row queued from a skip is never sent; an image is within the byte cap |
| RegistrationAgreement.MissingPreviewIsWaitedFor | backend/app/application/indexing/sync_job.py:462-505 | A missing preview is waited for until the attempts run out, then SKIPPED, through any run of steps |
| LinkRepository.AssignColumn | backend/app/infrastructure/database/repositories/file_index_link_repo.py:590-632 | A column is written exactly when an update is given, and counts as changed exactly when the value differs |
| LinkRepository.Oldest | backend/app/infrastructure/database/repositories/file_index_link_repo.py:260-285 | The oldest rows of a selection, in (created_at, id) order, as many as the limit allows |
| LinkRepository.FirstOfIsOldest | backend/app/infrastructure/database/repositories/file_index_link_repo.py:260-285 | Whatever was wanted and not picked is younger than all that was, by creation time and then id, and was left for the limit alone |
| LinkRepository.Repository.ModelByFileRecordId | backend/app/infrastructure/database/repositories/file_index_link_repo.py:517-521 | Finds the one row of a file record, or reports that there is none |
| LinkRepository.Repository.ApplyTransition | backend/app/infrastructure/database/repositories/file_index_link_repo.py:287-325 | The whole new row; updated_at moves exactly when a tracked column changed; PRIVATE rows are refused; every other row is untouched |
| LinkRepository.Repository.UpsertPending | backend/app/infrastructure/database/repositories/file_index_link_repo.py:47-114 | Inserts one row for a record without one, keeps an existing one as it is, refuses private records and writes nothing for excluded ones |
| LinkRepository.Repository.MarkContentChanged | backend/app/infrastructure/database/repositories/file_index_link_repo.py:146-171 | REINDEX_PENDING when the row has an id, PENDING otherwise, with fresh attempts, schedule and error; other rows untouched |
| LinkRepository.Repository.MarkRekey | backend/app/infrastructure/database/repositories/file_index_link_repo.py:173-198 | Only the key changes on a row without an id; a row with one becomes PENDING and due now |
| LinkRepository.Repository.MarkRemoved | backend/app/infrastructure/database/repositories/file_index_link_repo.py:200-238 | Exactly the rows of the given files become REMOVED; each is returned once, in the order its file is first mentioned |
| LinkRepository.Repository.MarkArchived | backend/app/infrastructure/database/repositories/file_index_link_repo.py:240-258 | The row of the file becomes ARCHIVED and due; other rows untouched |
| LinkRepository.Repository.ClaimDue | backend/app/infrastructure/database/repositories/file_index_link_repo.py:260-285 | The oldest rows that are not indexed, failed or skipped, not PRIVATE and whose time has come, at most the limit; a limit below one is refused |
| LinkRepository.Repository.RetryFailed | backend/app/infrastructure/database/repositories/file_index_link_repo.py:411-442 | Exactly the oldest FAILED rows within the limit are requeued, SUBMITTED with an id and PENDING without |
| SyncJob.IndexSyncJob.Write | backend/app/application/indexing/sync_job.py:723-751 | One column update through the repository, to one row only; a row that has vanished is answered with none |
| SyncJob.IndexSyncJob.Succeed | backend/app/application/indexing/sync_job.py:591-610 | The row after a success: new state, id and hash, attempts and schedule cleared |
| SyncJob.IndexSyncJob.Settle | backend/app/application/indexing/sync_job.py:612-626 | The row after a confirmed removal, stamped with the year 9999 |
| SyncJob.IndexSyncJob.SkipLink | backend/app/application/indexing/sync_job.py:628-645 | The row becomes SKIPPED with a reason |
| SyncJob.IndexSyncJob.FailLink | backend/app/application/indexing/sync_job.py:647-666 | The row becomes FAILED with a reason and leaves the queue |
| SyncJob.IndexSyncJob.ScheduleRetry | backend/app/application/indexing/sync_job.py:668-721 | One more attempt and a longer wait, or FAILED at the cap; a SUBMITTED row keeps its error code |
| SyncJob.IndexSyncJob.MissObject | backend/app/application/indexing/sync_job.py:462-505 | Only previews without a hash are waited for; any other missing object fails at once |
| SyncJob.IndexSyncJob.Locate | backend/app/application/indexing/sync_job.py:432-460 | The hash that will be sent, the row's own or that of the object read, and the size of the object |
| SyncJob.IndexSyncJob.AdoptDuplicate | backend/app/application/indexing/sync_job.py:518-544 | A duplicate answer is adopted when it names an id the row does not contradict, and is a conflict otherwise |
| SyncJob.IndexSyncJob.RegisterLink | backend/app/application/indexing/sync_job.py:252-272 | Registration computes the table's row and outcome for every answer |
| SyncJob.IndexSyncJob.DeleteVectorsOf | backend/app/application/indexing/sync_job.py:387-410 | Which answers confirm the vectors gone: accepted, 404, or 409 `file_busy` |
| SyncJob.IndexSyncJob.Reindex | backend/app/application/indexing/sync_job.py:274-288 | Delete the old entry, forget its id, then register: the table's row for every answer |
| SyncJob.IndexSyncJob.OnRekeyHttp | backend/app/application/indexing/sync_job.py:546-574 | Changed content moves the row on to reindexing; every other HTTP error fails it |
| SyncJob.IndexSyncJob.RekeyLink | backend/app/application/indexing/sync_job.py:290-318 | Re-keying computes the table's row for every answer |
| SyncJob.IndexSyncJob.OnPolledCard | backend/app/application/indexing/sync_job.py:341-372 | What each card status does to the row, the timeout included |
| SyncJob.IndexSyncJob.Poll | backend/app/application/indexing/sync_job.py:320-339 | Polling computes the table's row for every answer |
| SyncJob.IndexSyncJob.Remove | backend/app/application/indexing/sync_job.py:374-385 | Removal computes the table's row for every answer |
| SyncJob.IndexSyncJob.Dispatch | backend/app/application/indexing/sync_job.py:222-250 | Each state goes to its own handler |
| SyncJob.IndexSyncJob.ProcessLink | backend/app/application/indexing/sync_job.py:209-220 | One step is exactly the table's step, whatever is answered, and touches one row |
| SyncJob.IndexSyncJob.Run | backend/app/application/indexing/sync_job.py:163-198 | A tick takes the table's step on each claimed row once, leaves every other row, and its four counts sum to the claims |
| SyncSpec.BackoffBounds | backend/app/application/indexing/sync_job.py:846-849 | Every wait is between 30 seconds and an hour, at least a minute after an attempt, an hour exactly from the seventh |
| StepOutcome.BackoffDoubles | backend/app/application/indexing/sync_job.py:846-849 | The wait starts at thirty seconds and doubles with each attempt, up to an hour |
| StepOutcome.CallsExactly | backend/app/application/indexing/sync_job.py:222-339 | For every row and every answer the exact sequence of calls: a poll, a re-key, a deletion and a registration, each made exactly when it is due and with the id, kind, user and hash it must carry |
| StepOutcome.StepFollows | backend/app/application/indexing/sync_job.py:209-721 | For every row and every answer: each of the eight states follows exactly for its own answers, with outcome, id, hash, attempts, schedule, error code and clock |
| StepOutcome.PolledState | backend/app/application/indexing/sync_job.py:320-372 | Of a SUBMITTED row with an id: INDEXED exactly for a ready card, REMOVED exactly for 404 or a card going or gone, FAILED exactly for another HTTP error, an error card, a wait run out or the last outage, otherwise still SUBMITTED |
| StepOutcome.BecomesIndexed | backend/app/application/indexing/sync_job.py:305-318 | A step makes a row INDEXED exactly when its poll said ready or its re-key was answered with a card |
| StepOutcome.PreviewKeyExactly | backend/app/application/indexing/sync_job.py:826-827 | The job takes for previews exactly the keys with the previews directory inside and the preview name at the end |
| StepOutcome.DueStatesAreBusy | backend/app/domain/indexing.py:24-32 | The states that are claimed are exactly those in which a step can do anything |
| StepShape.ProcessShape | backend/app/application/indexing/sync_job.py:209-250 | After a step without unforeseen exceptions a row has left the queue, waits for its next attempt, was handed to the index, or is still being indexed |
| StepShape.ProcessFixed | backend/app/application/indexing/sync_job.py:723-751 | No step writes identity, owner, section, key, type or creation time |
| SyncTermination.StepLowersRank | backend/app/application/indexing/sync_job.py:668-721 | Every step taken when due lowers the rank over phase, attempts left and wait left |
| SyncTermination.RankFacts | backend/app/application/indexing/sync_job.py:668-721 | The rank is zero exactly for rows out of the queue and is bounded by the settings alone |
| SyncTermination.RunsAreBounded | backend/app/application/indexing/sync_job.py:209-372 | No run of steps is longer than its first row's rank, at most 2 * max_attempts plus the wait in 30-second units |
| SyncTermination.NeverStuck | backend/app/infrastructure/database/repositories/file_index_link_repo.py:260-285 | Until a row has left the queue, and only until then, some instant makes it due |
| SyncTermination.SlowestStep | backend/app/application/indexing/sync_job.py:341-372 | On the slowest path a step lowers the rank by exactly one |
| SyncTermination.SlowestRun | backend/app/application/indexing/sync_job.py:209-372 | A run as long as the rank exists, so the bound cannot be lowered |
| SyncTermination.SubmittedWait | backend/app/application/indexing/sync_job.py:320-372 | While a row stays SUBMITTED its updated_at never moves, each outage costs one attempt, and the next outage is fatal exactly when it is the max_attempts-th |
| SyncTermination.StillIndexingPolls | backend/app/application/indexing/sync_job.py:341-372 | Polls that find the index still working number at most ceil(max_wait / 30) |
| QueueDrain.StepLeavesDueSet | backend/app/application/indexing/sync_job.py:668-721 | A step at a due row takes it out of the due set, unless it hands an early row on to SUBMITTED |
| QueueDrain.TickLowersPotential | backend/app/application/indexing/sync_job.py:163-198 | A tick lowers the potential by at least the number of rows it claimed |
| QueueDrain.Drains | backend/app/application/indexing/sync_job.py:163-198 | With the clock still, n due rows are claimed at most 2n times, and after 2n ticks nothing is due |
| QueueDrain.RunTakesTick | backend/app/application/indexing/sync_job.py:163-198 | What the job's run leaves in the table is the tick the drain bound speaks of |
| RowInvariant.ProcessSound | backend/app/application/indexing/sync_job.py:209-250 | Every step keeps a row sound, even one whose exception was swallowed half way |
| RowInvariant.EventKeepsSound | backend/app/infrastructure/database/repositories/file_index_link_repo.py:146-258 | Every mark, retry, notification and step keeps a row sound: SUBMITTED and INDEXED rows have an id, FAILED and SKIPPED rows a reason and no schedule |
| RowInvariant.ReachableIsSound | backend/app/infrastructure/database/repositories/file_index_link_repo.py:47-114 | Every row that starts as an insert is sound after any run of events |
| RowInvariant.TickKeepsTableSound | backend/app/application/indexing/sync_job.py:163-198 | A tick keeps the whole table sound |
| RowInvariant.IdClearedOnlyWhenGone | backend/app/application/indexing/sync_job.py:274-288 | A step drops a row's id exactly when it asked for that id to be deleted, the index confirmed it gone, and no new id took its place |
| RowInvariant.MarksKeepTheId | backend/app/infrastructure/database/repositories/file_index_link_repo.py:146-258 | No request-path event touches the id |
| RowInvariant.RegistersOnlyWithoutId | backend/app/application/indexing/sync_job.py:252-288 | A registration is sent only for a row without an id or right after its id was confirmed gone |
| RowInvariant.RemovalIsFinal | backend/app/application/indexing/sync_job.py:374-410 | Under sync steps a removed or archived row stays so or becomes FAILED, and asks the index only for its own deletion |
| RowInvariant.ConfirmedRemovalSettles | backend/app/application/indexing/sync_job.py:612-626 | A due removal settles exactly when the row has no id or the index confirmed it; settled, it is never due before the year 9999 |
| RowInvariant.RevivedOnlyBy | backend/app/infrastructure/database/repositories/file_index_link_repo.py:146-258 | A removed or archived row goes back to work exactly through an overwrite, or through a re-key while it has an id |
| RowInvariant.RekeyedArchiveFails | backend/app/application/indexing/sync_job.py:290-318 | An archived row with an id that is re-keyed is due at once, finds no object and fails for good, its id kept and no deletion asked for |
| AfterMarks.OverwriteIsReindexed | backend/app/infrastructure/database/repositories/file_index_link_repo.py:146-171 | After an overwrite no step asks for a re-key; with an id the next step first asks for its deletion; and over any steps the row is SUBMITTED or INDEXED only after that deletion was confirmed and then the new hash, or the object's, was registered |
| AfterMarks.MoveIsRekeyed | backend/app/infrastructure/database/repositories/file_index_link_repo.py:173-198 | After a move the next step re-keys the id, or makes no call exactly when there is no object; without an id only the key changed |
| AfterMarks.RemovalIsAsked | backend/app/infrastructure/database/repositories/file_index_link_repo.py:200-258 | After a removal or an archiving every step asks for the deletion of the id and nothing else, and the row keeps its state or fails |
| AfterMarks.RetryGoesOn | backend/app/infrastructure/database/repositories/file_index_link_repo.py:411-442 | A retried row is due with all its attempts; with an id the next step only asks what became of it, without one it registers at most |
| RagOwnership.StepKeepsOwnership | backend/app/application/indexing/sync_job.py:252-288 | Every step keeps the ownership invariant of any set of rows, whatever is answered, whichever replies are lost and whichever row it is on |
| RagOwnership.RunKeepsOwnership | backend/app/application/indexing/sync_job.py:209-410 | So does every run over any number of rows, in the set or not |
| RagOwnership.NoRowOwnsTwo | backend/app/application/indexing/sync_job.py:518-544 | At every point of every run a row of the set has at most one live entry, and no other row stores its id |
| RagOwnership.LostEntryIsAdopted | backend/app/application/indexing/sync_job.py:518-544 | An entry whose reply was lost is what the next answered registration adopts, and no second one is made |
| RagOwnership.SettledRemovalIsComplete | backend/app/application/indexing/sync_job.py:374-410 | For one step: a settled removal leaves behind exactly what was live for a row without an id |
| RagOwnership.LostReplyThenDeleteLeaks | backend/app/application/indexing/sync_job.py:374-385 | A run in which a deleted file's entry stays live |
| RagOwnership.OverwriteKeepsOwnership | backend/app/infrastructure/database/repositories/file_index_link_repo.py:146-171 | For one overwrite: what is live for a row without an id is orphaned exactly when the fingerprint changes |
| RagRuns.StepKeepsAccounts | backend/app/application/indexing/sync_job.py:252-288 | A step leaves nothing live for a row without an id, unless it made a registration call that was not answered with one; other rows are not affected |
| RagRuns.RunKeepsAccounts | backend/app/application/indexing/sync_job.py:209-410 | Over every run of steps, lost replies, marks, overwrites and new files from an empty index, whatever happens to other rows: for rows whose own overwrites are clean and whose bytes are no other file's, ownership holds and nothing is live without an id once the latest registration call was answered |
| RagRuns.AnsweredRemovalIsComplete | backend/app/application/indexing/sync_job.py:374-410 | In such a run a removal that settles leaves nothing in the index, if the latest registration call of the row was answered; only that row's own overwrites and bytes are assumed about |
| RagRuns.OnlyAnsweredNeverLeaks | backend/app/application/indexing/sync_job.py:252-272 | A deletion after a registration call leaves nothing in the index, whatever the index did, exactly when the call was answered with an id |
| RagRuns.OnlyAnsweredNeverOrphans | backend/app/infrastructure/database/repositories/file_index_link_repo.py:146-171 | An overwrite with new content after a registration call orphans nothing, whatever the index did, exactly when the call was answered with an id |
| ImmediateNotify.Deduplicate | backend/app/application/indexing/immediate.py:58-125 | The captured ids once each, in the order of their first mention |
| ImmediateNotify.NotifyIndexLinks | backend/app/application/indexing/immediate.py:58-125 | Exactly the new registrations and removals of the given files take one step; nothing happens when indexing is off |
| ImmediateNotify.NotifyOne | backend/app/application/indexing/immediate.py:127-135 | One file's row takes a step when it should be notified, and is left alone otherwise |
| ImmediateNotify.WhoIsNotified | backend/app/application/indexing/immediate.py:127-159 | The FILES and PHOTOS rows that are removed, or pending without an id, take the step, which asks at most for the deletion or the registration |
| Backfill.SelectionAfterPage | backend/app/infrastructure/database/repositories/file_index_link_repo.py:487-515 | The selection past a page's last record is what the page left, whether or not its records got their rows |
| Backfill.Backfiller.Candidates | backend/app/infrastructure/database/repositories/file_index_link_repo.py:327-347 | The first records without a row past the cursor, in (created_at, id) order |
| Backfill.Backfiller.EnqueueRecord | backend/app/application/indexing/backfill.py:169-184 | Accepted exactly when the decision is to send and nothing raised; rows are only added, for this record |
| Backfill.Backfiller.EnqueuePage | backend/app/application/indexing/backfill.py:152-166 | Every record of the page is examined once; the accepted ones are counted as enqueued and queued, the others as skipped |
| Backfill.Backfiller.Pass | backend/app/application/indexing/backfill.py:80-101 | The remaining count falls by exactly the page, although some enqueues fail |
| Backfill.Backfiller.CallUntilDone | backend/app/application/indexing/backfill.py:45-70 | Passing each cursor on examines every candidate exactly once, in order, in ceil(N / limit) calls |
| StoragePaths.SplitJoin | backend/app/infrastructure/storage/base_adapter.py:47-55 | Splitting undoes joining when no segment holds a slash |
| StoragePaths.SegmentsOf | backend/app/application/file_service.py:422-424 | Splitting finds exactly the segments that stand in the text between slashes or its ends |
| StoragePaths.NormalizeKey | backend/app/infrastructure/storage/base_adapter.py:39-55 | The loop over the segments computes the normalized key |
| StoragePaths.SafeKeyIsCanonical | backend/app/infrastructure/storage/base_adapter.py:39-55 | A path is refused exactly for a parent segment, and otherwise becomes plain segments with no slash at either end |
| StoragePaths.NormalizingTwice | backend/app/infrastructure/storage/base_adapter.py:39-55 | Normalizing is idempotent exactly when no blank stands at the start of the first or the end of the last segment that is kept |
| StoragePaths.KeysStayUnderRoot | backend/app/infrastructure/storage/s3_adapter.py:120-134 | An object key never leaves the root, never ends in a slash, and two paths share one exactly when they normalize alike |
| ObjectStoreSpec.PartitionRanges | backend/app/infrastructure/storage/s3_adapter.py:445-463 | Parts are ceil(size / 8 MiB) consecutive, disjoint, non-empty ranges that cover the bytes |
| ObjectStoreSpec.PartitionUnique | backend/app/infrastructure/storage/s3_adapter.py:284-317 | The parts of a write depend on its bytes alone, not on its chunks |
| ObjectStore.S3StorageAdapter.UploadBufferPart | backend/app/infrastructure/storage/s3_adapter.py:376-398 | A part is listed exactly when the store holds it |
| ObjectStore.S3StorageAdapter.UploadFullParts | backend/app/infrastructure/storage/s3_adapter.py:284-300 | The buffer is drained into full parts; nothing is lost between them, and less than a part is left |
| ObjectStore.S3StorageAdapter.FinishWrite | backend/app/infrastructure/storage/s3_adapter.py:302-330 | A single put exactly below 8 MiB; otherwise the remaining bytes are the last part and the parts make the object |
| ObjectStore.S3StorageAdapter.Write | backend/app/infrastructure/storage/s3_adapter.py:258-368 | For every chunking the stored object is the concatenation, in the one possible partition; a write that fails or breaks off changes no object and leaves at most its own upload |
| ObjectStore.S3StorageAdapter.CopyObject | backend/app/infrastructure/storage/s3_adapter.py:417-432 | The copy has the source's bytes; ranges are used exactly from 5 GiB; a failed copy changes nothing |
| ObjectStore.S3StorageAdapter.CopyByRanges | backend/app/infrastructure/storage/s3_adapter.py:434-484 | The loop ends with ranges that partition the source |
| ObjectStore.S3StorageAdapter.Read | backend/app/infrastructure/storage/s3_adapter.py:224-256 | The chunks of an object together are its bytes |
| ObjectStore.S3StorageAdapter.List | backend/app/infrastructure/storage/s3_adapter.py:145-222 | Exactly the visible files directly below, with their sizes, and the visible directories, each once; a directory is missing exactly when nothing lies below a path that is not the root |
| ObjectStore.NodesShow | backend/app/infrastructure/storage/s3_adapter.py:157-193 | Files are listed exactly for the visible keys directly below, with their lengths; directories exactly for the visible names with something below them |
| ObjectStore.S3StorageAdapter.Mkdir | backend/app/infrastructure/storage/s3_adapter.py:536-570 | Exactly the markers of the path and of the directories above it are put, and how far it got when it stops |
| ObjectStore.S3StorageAdapter.Delete | backend/app/infrastructure/storage/s3_adapter.py:486-534 | Exactly the object and what lies below its key go; a stop on the way removes no other key |
| ObjectStore.S3StorageAdapter.DeleteInBatches | backend/app/infrastructure/storage/s3_adapter.py:607-612 | The batches of 1000 delete exactly the keys, and no batch is refused for its size |
| ObjectStore.S3StorageAdapter.CopyKeys | backend/app/infrastructure/storage/s3_adapter.py:602-605 | Each key copied to its own suffix under the new prefix, in listing order |
| ObjectStore.S3StorageAdapter.Rename | backend/app/infrastructure/storage/s3_adapter.py:572-613 | The object, or everything below the key, moved; how far it got when it stops |
| ObjectStoreSpec.CopyThenDeleteMoves | backend/app/infrastructure/storage/s3_adapter.py:602-612 | With no overlap, copying and deleting in any listing order is the move of every key with its content and suffix, and nothing else |
| ObjectStoreSpec.RenameKeepsEverything | backend/app/infrastructure/storage/s3_adapter.py:602-612 | A finished rename keeps every object of the store, at its own key or at its destination, exactly when no object stands at a destination; other keys are unchanged in any case |
| ObjectStoreSpec.SingleRenameKeepsEverything | backend/app/infrastructure/storage/s3_adapter.py:576-590 | A rename of one object keeps every object exactly when the new key is free |
| ObjectStoreSpec.MovedObjectsArrive | backend/app/infrastructure/storage/s3_adapter.py:602-612 | Every moved object arrives with its content exactly when no destination key is itself being moved |
| ObjectStoreSpec.DestInjective | backend/app/infrastructure/storage/s3_adapter.py:602-605 | Two keys never move to one key |
| ObjectStoreSpec.ApartNeverOverlaps | backend/app/infrastructure/storage/s3_adapter.py:572-576 | Prefixes neither of which contains the other never overlap |
| ObjectStoreSpec.MoveBack | backend/app/infrastructure/storage/s3_adapter.py:592-612 | Moving a prefix there and back restores the store exactly when nothing stood below the destination |
| ObjectStoreSpec.RenameBack | backend/app/infrastructure/storage/s3_adapter.py:572-613 | Renaming back restores the store exactly when nothing stood at the new key nor, for a directory, below it |
| ObjectStoreSpec.StoppedRenameLosesNothing | backend/app/infrastructure/storage/s3_adapter.py:602-612 | A rename that stops anywhere has changed only moved keys and destinations; with no overlap each moved object is at one of its two keys, and with free destinations so is every object |
| ObjectTree.PrefixIsAncestor | backend/app/infrastructure/storage/s3_adapter.py:130-134 | A key lies below a directory's prefix exactly when its segments extend the directory's |
| ObjectTree.RelocateIsShift | backend/app/infrastructure/storage/s3_adapter.py:572-613 | A rename of keys is the move of a subtree |
| ObjectTree.LiveAfterShift | backend/app/infrastructure/storage/s3_adapter.py:592-612 | What exists after a rename: nothing under the old path, the subtree under the new one, and elsewhere all but a directory that nothing else kept |
| ObjectTree.PutIsAdd | backend/app/infrastructure/storage/s3_adapter.py:302-307 | A write adds its path to the tree and a marker adds the directory |
| ObjectTree.MkdirIsAdd | backend/app/infrastructure/storage/s3_adapter.py:544-552 | mkdir of a path with tidy segments adds its markers to the tree and nothing else |
| ObjectTree.NodesAreChildren | backend/app/infrastructure/storage/s3_adapter.py:156-194 | The listing by prefix and delimiter shows exactly the visible children in the tree |
| DirectoryWalk.WalkDirectory | backend/app/application/file_service.py:618-654 | The walk over path strings and adapter listings ends and returns exactly what the directories it opened list, each entry once |
| WalkPaths.StableMeansTrim | backend/app/application/file_service.py:1022-1024 | Normalizing leaves a path of plain segments alone exactly when no blank stands at its ends |
| WalkPaths.NextIsNormalized | backend/app/application/file_service.py:630-650 | The recursion goes into the child's own path exactly when normalizing leaves that path alone |
| WalkPaths.ArcnameIsRelative | backend/app/application/file_service.py:669-680 | An archive name is the path below the start, with a slash after a directory |
| WalkPaths.ArcnamesDistinct | backend/app/application/file_service.py:669-680 | Two entries never share an archive name |
| DirectoryWalk.CollectDirectory | backend/app/application/file_service.py:584-592 | Every visible entry below the directory is collected exactly when each directory that shows something has a path that normalizing leaves alone; archive names are distinct and every entry is of an existing child |
| DirectoryWalk.TrailingBlankIsMissed | backend/app/application/file_service.py:630-650 | A store in which that fails: the content of a directory whose name ends in a blank |
| EncryptedStream.DecodeBlobThen | backend/app/infrastructure/storage/encrypted_adapter.py:290-308 | Whole frames decode to their chunks and then to whatever follows them |
| EncryptedStream.FrameLayout | backend/app/infrastructure/storage/encrypted_adapter.py:224-230 | A frame is twelve bytes of iv, the big-endian length in four and the ciphertext |
| EncryptedStream.RoundTrip | backend/app/infrastructure/storage/encrypted_adapter.py:211-235 | Reading back a written blob yields the written chunks without error |
| EncryptedStream.CutInsideFrame | backend/app/infrastructure/storage/encrypted_adapter.py:290-305 | A blob cut inside a frame yields the frames before and then raises, and which error depends only on where |
| EncryptedStream.Truncation | backend/app/infrastructure/storage/encrypted_adapter.py:290-308 | A truncated blob decodes without error exactly when it was cut at a frame boundary, and always to a prefix |
| EncryptedStream.DecodesOnlyBlobs | backend/app/infrastructure/storage/encrypted_adapter.py:290-308 | Whatever decodes without error is a framing of what it decodes to |
| EncryptedStream.AsyncByteStream.Read | backend/app/infrastructure/storage/encrypted_adapter.py:50-73 | The next bytes of the stream, or all that remain, however it is chunked |
| EncryptedStream.DecryptStream | backend/app/infrastructure/storage/encrypted_adapter.py:290-308 | For every chunking, the chunks and the exception are those of the bytes |
| EncryptedStream.EncryptStream | backend/app/infrastructure/storage/encrypted_adapter.py:222-230 | The frames together are the blob, and the count is the number of plaintext bytes |
| EncryptedStream.DecryptedFileSize | backend/app/infrastructure/storage/encrypted_adapter.py:310-316 | The plaintext length, or the exception of a damaged blob |
| EncryptedStream.WriteThenRead | backend/app/infrastructure/storage/encrypted_adapter.py:211-252 | Every chunking of the plaintext and every re-chunking of the blob give back the written chunks and their size |
| EncryptedNames.Base64RoundTrip | backend/app/infrastructure/storage/encrypted_adapter.py:102-114 | Decoding the URL-safe base64 of any bytes gives the bytes (section 5 of RFC 4648) |
| EncryptedNames.KnownEncodings | backend/app/infrastructure/storage/encrypted_adapter.py:105 | The test vectors of section 10 of RFC 4648 and the URL-safe symbols |
| EncryptedNames.Unpadded | backend/app/infrastructure/storage/encrypted_adapter.py:106-109 | Without its pads an encoding is symbols only, and its length alone says how many pads to put back |
| EncryptedNames.NameRoundTrip | backend/app/infrastructure/storage/encrypted_adapter.py:102-114 | Decrypting an encrypted name gives the name, whatever iv was drawn |
| EncryptedNames.NameIsPlainSegment | backend/app/infrastructure/storage/encrypted_adapter.py:102-106 | An encrypted name can stand in a key: never empty, hidden, or with a separator |
| EncryptedNames.NamesNeverCollide | backend/app/infrastructure/storage/encrypted_adapter.py:102-106 | Different names never share an encrypted name |
| EncryptedNames.UuidIsNoName | backend/app/infrastructure/storage/encrypted_adapter.py:108-114 | The text of a record id never decrypts, so a temporary file is no entry of any logical path |
| EncryptedTree.ResolvesUnique | backend/app/infrastructure/storage/encrypted_adapter.py:335-364 | With distinct siblings a logical path has at most one encrypted path |
| EncryptedTree.UnambiguousExactly | backend/app/infrastructure/storage/encrypted_adapter.py:335-364 | Logical paths are unambiguous exactly when no readable directory has two entries of one name |
| EncryptedTree.AddResolves | backend/app/infrastructure/storage/encrypted_adapter.py:258-260 | After a write or mkdir the new entry resolves, and nothing else that did not before |
| EncryptedTree.AddKeepsDistinct | backend/app/infrastructure/storage/encrypted_adapter.py:211-217 | A write or mkdir keeps siblings distinct exactly when no other sibling has the name |
| EncryptedTree.StoreRenameIsTreeRename | backend/app/infrastructure/storage/encrypted_adapter.py:262-265 | The store's rename of the resolved key to the drawn key is the move of the subtree |
| EncryptedTree.RenameResolves | backend/app/infrastructure/storage/encrypted_adapter.py:262-265 | What every logical path resolves to after a rename to a fresh path |
| EncryptedTree.RenameKeepsDistinct | backend/app/infrastructure/storage/encrypted_adapter.py:262-265 | A rename keeps siblings distinct exactly when its target was fresh |
| EncryptedAdapter.NodeNames | backend/app/infrastructure/storage/encrypted_adapter.py:345-357 | The names the inner listing shows are the names of the tree |
| EncryptedAdapter.EncryptedStorageAdapter.ResolveEncryptedPath | backend/app/infrastructure/storage/encrypted_adapter.py:335-364 | What it finds resolves, with distinct siblings it finds whatever resolves, and the root and paths below `.tmp` stand for themselves |
| EncryptedAdapter.EncryptedStorageAdapter.ResolveNames | backend/app/infrastructure/storage/encrypted_adapter.py:343-364 | The walk down the listings, name by name: what it finds resolves; with distinct siblings it finds whatever resolves |
| EncryptedAdapter.EncryptedStorageAdapter.ToEncryptedPath | backend/app/infrastructure/storage/encrypted_adapter.py:318-333 | The parent resolved and the leaf encrypted so that it reads as the name; the root and paths below `.tmp` stand for themselves |
| EncryptedAdapter.EncryptedStorageAdapter.Write | backend/app/infrastructure/storage/encrypted_adapter.py:211-252 | The framed bytes under the drawn path, which is exactly the new entry that resolves; a failed write changes no object; without faults it succeeds exactly when the parent exists and every chunk fits a frame |
| EncryptedAdapter.EncryptedStorageAdapter.Read | backend/app/infrastructure/storage/encrypted_adapter.py:192-200 | The decryption of the object the path resolves to |
| EncryptedAdapter.EncryptedStorageAdapter.WriteThenRead | backend/app/infrastructure/storage/encrypted_adapter.py:192-252 | What is written to a fresh path is read from it, through names, frames, parts and chunks; without faults exactly when the parent exists and every chunk fits a frame |
| EncryptedAdapter.EncryptedStorageAdapter.Mkdir | backend/app/infrastructure/storage/encrypted_adapter.py:258-260 | Exactly the new directory resolves besides what did before; without faults it succeeds exactly when the parent exists |
| EncryptedAdapter.EncryptedStorageAdapter.Rename | backend/app/infrastructure/storage/encrypted_adapter.py:262-265 | The objects are moved as the store's rename moves them and the tree with them; without faults it succeeds exactly when there is something at the old path and the new one's parent exists |
| EncryptedAdapter.EncryptedStorageAdapter.Delete | backend/app/infrastructure/storage/encrypted_adapter.py:254-256 | What the path resolves to and everything below it go, nothing else; without faults exactly when something stands there |
| EncryptedAdapter.EncryptedStorageAdapter.WriteMarker | backend/app/infrastructure/storage/encrypted_adapter.py:152-160 | The marker stands under its plain name and validates; no path resolves that did not before |
| EncryptedAdapter.EncryptedStorageAdapter.ValidateMarker | backend/app/infrastructure/storage/encrypted_adapter.py:120-150 | True exactly when the marker is there and decrypts under the key |
| EncryptedAdapter.SpelledIsReserved | backend/app/infrastructure/storage/encrypted_adapter.py:318-364 | The first name of every path the adapter puts objects at is `.tmp` or decrypts |
| EncryptedAdapter.OthersStayShaped | backend/app/infrastructure/storage/encrypted_adapter.py:211-265 | What one section's operations add leaves the sections with other roots in shape |
| EncryptedListing.List | backend/app/infrastructure/storage/encrypted_adapter.py:162-190 | Exactly the names that decrypt, once for each stored entry, with plaintext sizes; a name with its kind comes twice exactly when two entries of that kind have it |
| EncryptedListing.ListedNamesDistinct | backend/app/infrastructure/storage/encrypted_adapter.py:162-190 | The listed names with their kinds are distinct exactly when no two files and no two directories there have one name |
| PrivateWalk.WalkDirectory | backend/app/application/file_service.py:618-654 | The walk over encrypted listings ends; an entry comes twice exactly when a directory it listed has two of a kind under one name; every directory returned is visited, and listed unless nothing is there |
| PrivateWalk.StandingIsReturned | backend/app/application/file_service.py:640-654 | With distinct siblings the walk returns every readable name of every readable directory at or below the start |
| PrivateWalk.CollectDirectory | backend/app/application/file_service.py:584-592 | Every entry is of a readable name below the start; none comes twice exactly when no directory listed has two of a kind under one name; with distinct siblings all of them are there, once each; without store failures it fails only over a damaged blob |
| ArchiveJob.ArchiveRecord | backend/app/application/archive_service.py:119-159 | The compressed object under the path with the extension, the path and everything below it gone; without faults exactly when the object is at the plain path |
| ArchiveJob.KeyOfRelative | backend/app/infrastructure/storage/base_adapter.py:39-55 | Normalizing a stored path again drops the blanks at its end, and the last name with them when nothing or a dot is left |
| ArchiveJob.FoundIsReserved | backend/app/application/archive_service.py:119-127 | In a section with encrypted names the job finds an object at reserved paths only |
| ArchiveJob.ReservedByFirstName | backend/app/application/archive_service.py:119-127 | A stored path is reserved exactly when it is empty or its first name is |
| ArchiveJob.MarkerIsFound | backend/app/application/archive_service.py:119-127 | The job finds an object for a private file called `.marker` exactly when the marker stands |
| ArchiveJob.ArchiveKeepsShape | backend/app/application/archive_service.py:129-147 | Archiving an object of the section leaves it in shape, so what it finds later is reserved too |
| EncryptedMoves.MovedContents | backend/app/infrastructure/storage/s3_adapter.py:572-613 | Below a path moved to a free place every object is where its path went |
| EncryptedMoves.RenameKeepsContents | backend/app/infrastructure/storage/encrypted_adapter.py:262-265 | After a rename to a fresh path, what a logical path resolves to is the object it stood for before |
| EncryptedMoves.RenameThenRead | backend/app/infrastructure/storage/encrypted_adapter.py:192-265 | Reading below the new path after a rename gives what reading below the old path gave before it, the absence of a file included |
| EncryptedMoves.RenameOfBoth | backend/app/infrastructure/storage/encrypted_adapter.py:262-265 | Renaming a path that is a file and a directory at once moves the file alone; everything that resolved still does |
| EncryptedMoves.Upload | backend/app/application/file_service.py:136-147 | A write below `.tmp` and a rename to a fresh path add exactly that entry; without faults they succeed exactly when the parent exists and every chunk fits a frame |
| EncryptedMoves.UploadThenRead | backend/app/application/file_service.py:136-147 | What was uploaded that way is what is read from the path |
| StorageLedger.BytesOfPut | backend/app/infrastructure/database/repositories/file_repo.py:61-107 | Writing one record changes each sum over the records by that record's share alone |
| StorageLedger.UploadKeepsLedger | backend/app/application/file_service.py:145-165 | An upload keeps all three counters equal to their sums |
| StorageLedger.OverwriteKeepsLedger | backend/app/application/file_service.py:214-252 | An overwrite keeps them exactly when the owner did it or the size did not change |
| StorageLedger.DeleteKeepsLedger | backend/app/application/file_service.py:340-360 | A delete keeps them, whoever deletes |
| StorageLedger.ArchiveKeepsLedger | backend/app/infrastructure/database/repositories/file_repo.py:538-554 | Archiving moves no bytes |
| StorageLedger.RenameKeepsLedger | backend/app/application/file_service.py:560-582 | Renaming moves no bytes |
| StorageLedger.DeleteTreeKeepsLedger | backend/app/application/file_service.py:761-809 | A recursive delete with its one decrement keeps them |
| StorageLedger.ResetKeepsLedger | backend/app/application/private_service.py:131-135 | A private reset keeps them exactly when no archived private record has bytes |
| StorageLedger.GapOfExtraction | backend/app/application/file_service.py:456-526 | However each entry goes, the difference between every counter and its sum is unchanged as long as the session lives |
| StorageLedger.ReportedAreCharged | backend/app/application/file_service.py:455-541 | The bytes reported are those charged exactly when no file with bytes failed to be queued |
| StorageLedger.ZipKeepsLedger | backend/app/application/file_service.py:456-526 | Whatever raises inside the loop, what an extraction leaves in the database keeps them; a failed statement leaves nothing |
| StorageLedger.StoredFilesKeep | backend/app/application/generated_service.py:146-151 | A generated run keeps them |
| StorageLedger.TransactionKeepsLedger | backend/app/infrastructure/database/repositories/quota_repo.py:40-131 | Each transaction keeps the ledger exactly when its own condition holds |
| StorageLedger.RunKeepsLedger | backend/app/infrastructure/database/repositories/quota_repo.py:40-131 | Every run of transactions that meet their conditions keeps the ledger |
| OrdinaryRuns.OrdinaryRunKeepsLedger | backend/app/application/private_service.py:131-135 | For any set of reserved paths: if private records are archived at those only, runs that give no private file one of them, and overwrite only what the caller owns, keep the ledger through renames, archiving and resets |
| OrdinaryRuns.PrivateRunKeepsLedger | backend/app/application/archive_service.py:119-127 | So with the archive job looking for private records at their plain paths, over any stores the operations keep in shape and any number of keys for each user |
| OrdinaryRuns.ArchivedThenReset | backend/app/application/private_service.py:131-135 | Once any private file is archived, the next reset keeps the ledger exactly when the file is empty |
| OrdinaryRuns.MarkerBreaksReset | backend/app/application/archive_service.py:119-159 | A run that does: a private file called `.marker` is archived in the marker's place and the section reset |
| StorageLimit.ExtractedUsage | backend/app/application/file_service.py:456-526 | An extraction charges its user exactly the sizes of its committed entries |
| StorageLimit.ChargedWithinSize | backend/app/application/file_service.py:391-397 | What an extraction charges never exceeds the size checked up front |
| StorageLimit.ResetLowersTotal | backend/app/infrastructure/database/repositories/quota_repo.py:106-131 | A reset lowers the total by the private counter, so it raises the total exactly when that counter is negative |
| StorageLimit.GuardedKeepsLimit | backend/app/domain/value_objects/storage_quota.py:12-25 | No guarded transaction but the reset of a negative private counter raises a total above what it was or a positive limit, whatever the counters are |
| StorageLimit.GuardedKeepsPrivateLimit | backend/app/application/file_service.py:284-324 | No transaction that passed the private check raises the private counter above what it was or the private limit |
| StorageLimit.GuardedExactly | backend/app/domain/value_objects/storage_quota.py:22-25 | The guards refuse nothing that fits: each request passes exactly when the total it would leave is within the limit; an archive, when the total with all its entries stored would be |
| StorageLimit.PrivateGuardedExactly | backend/app/application/file_service.py:280-318 | So do the guards of the private section, for the private counter |
| StorageLimit.FirstUpload | backend/app/infrastructure/database/repositories/quota_repo.py:18-30 | A user without a usage row may upload exactly what fits the default limit, under no private limit |
| StorageLimit.RunKeepsLimit | backend/app/domain/value_objects/storage_quota.py:12-25 | Nor does any run of guarded transactions raise the total |
| StorageLimit.RunKeepsPrivateLimit | backend/app/application/file_service.py:284-324 | Nor the private counter |
| StorageLimit.LedgerRunKeepsLimit | backend/app/domain/value_objects/storage_quota.py:12-25 | A guarded run that keeps the books from a state that keeps them raises no total above its start or the limit, resets included |
| LikePattern.LiteralPrefix | backend/app/infrastructure/database/repositories/file_repo.py:369-379 | Without wildcards the query selects exactly what starts with the prefix |
| LikePattern.PrefixSelectsItsOwn | backend/app/infrastructure/database/repositories/file_repo.py:358-387 | For every path, the selection is the directory's own content exactly when the directory's path has no wildcard |
| DirectoryRename.RepathedFollows | backend/app/infrastructure/database/repositories/file_repo.py:327-345 | The update gives a new prefix to just the paths below the old one, on every path, exactly when the old path has no wildcard |
| DirectoryRename.RenameKeepsRecords | backend/app/application/file_service.py:914-941 | Over all contents of the keys and all orders of listing: every active record of the section whose object was there names the same bytes afterwards exactly when each of them meets a condition on the records and keys before |
| DirectoryRename.OutcomeIsFinished | backend/app/infrastructure/storage/s3_adapter.py:572-613 | The store that condition speaks of is what the finished rename of the adapter leaves |
| DirectoryRename.OrdinaryRename | backend/app/application/file_service.py:914-941 | All records keep their bytes when no object stands at the old path itself or at a destination, nothing archived lies below, and the old path has no wildcard |
| FileTransactions.FileService.ListActiveUnderPrefix | backend/app/infrastructure/database/repositories/file_repo.py:358-387 | Each active record of the user and section that the pattern selects, once |
| FileTransactions.FileService.Increment | backend/app/infrastructure/database/repositories/quota_repo.py:40-71 | The total and the section's own counter rise together, for one user |
| FileTransactions.FileService.Decrement | backend/app/infrastructure/database/repositories/quota_repo.py:73-104 | The inverse charge |
| FileTransactions.FileService.ResetPrivateUsage | backend/app/infrastructure/database/repositories/quota_repo.py:106-131 | The private counter cleared and taken off the total, for one user |
| FileTransactions.FileService.GetRecordBySectionPath | backend/app/application/file_service.py:865-893 | The one active record at a path; in SHARED whoever owns it |
| FileTransactions.FileService.UploadFile | backend/app/application/file_service.py:110-175 | All of the upload or, whichever step raises, nothing |
| FileTransactions.FileService.GuardedUpload | backend/app/presentation/routers/file_router.py:76-96 | Refused exactly when it would exceed the limit or, in PRIVATE, the private limit |
| FileTransactions.FileService.EnsureOverwriteQuota | backend/app/application/file_service.py:284-324 | Passes exactly within both limits |
| FileTransactions.FileService.OverwriteFile | backend/app/application/file_service.py:177-261 | The guarded resize of the record at the path, or an unguarded upload when there is none; it succeeds when the guards pass and nothing raises; outside SHARED it keeps the books |
| FileTransactions.FileService.DeleteFile | backend/app/application/file_service.py:340-360 | Only the owner, or an administrator in SHARED; the owner gets the bytes back |
| FileTransactions.FileService.RenameFile | backend/app/application/file_service.py:560-582 | The new name beside the old one, exactly for a committed record the actor may use and a path that is not refused |
| FileTransactions.SiblingStaysBeside | backend/app/application/file_service.py:561-568 | A file at a plain path renamed to a plain name stays in its directory exactly when no blank comes to an end of the new path |
| FileTransactions.SiblingsStayApart | backend/app/application/file_service.py:561-568 | Files of different directories never get one path by renames |
| FileTransactions.FoundAfter | backend/app/application/file_service.py:865-893 | After every transaction, which files are found at which path of a section, by whom |
| FileTransactions.FileService.RenameDirectory | backend/app/infrastructure/database/repositories/file_repo.py:327-356 | Exactly the committed records the pattern selects get the new prefix |
| FileTransactions.FileService.DeleteDirectoryRecursive | backend/app/application/file_service.py:761-809 | Exactly the user's active records the directory's pattern selects go, and their sizes are released once; refused for the root, a missing path and a file |
| FileTransactions.FileService.ListCommitted | backend/app/infrastructure/database/repositories/file_repo.py:486-497 | Exactly the COMMITTED records of the user's section, once each, archived ones not among them |
| FileTransactions.FileService.ResetStorage | backend/app/application/private_service.py:131-135 | The user's committed private records deleted and the counter cleared |
| FileTransactions.FileService.UploadZipFolder | backend/app/application/file_service.py:367-535 | Refused exactly for an empty archive, an escaping name or a size beyond the limit; a failed statement undoes it; otherwise every entry has its own fate |
| FileTransactions.EscapesExactly | backend/app/application/file_service.py:418-428 | An archive name is refused exactly for a slash of either kind at its start or a parent segment between slashes of either kind |
| FileTransactions.FileService.ExtractFiles | backend/app/application/file_service.py:456-526 | Every entry is extracted to its own fate, in order; exactly the fully extracted files and bytes are reported |
| FileTransactions.FileService.StoreGeneratedRun | backend/app/application/generated_service.py:135-159 | Refused exactly when the run would exceed the limit; all files or none |

## Left out

- HTTP, SQL, S3, Redis and scheduler transport, JSON and YAML parsing, logging, migrations and the frontend.
- Interleaving inside a step: each step and each request transaction is atomic.
- Two rows that would adopt one id: `RagOwnership` speaks of rows whose bytes are no other file's of their user.
- The catch-all for unforeseen exceptions is part of every step, but termination, drain and the slowest run assume it does not fire, because it leaves the row unchanged and due.
- `retry_failed` is part of the reachable-row invariant and not of the removal property, since it may revive a FAILED removal.
- White-space cleaning of hashes, normalization of status text, display names, manifests and time zones. Error codes and content types are enumerations with a constructor for any other text.
- Failing claim queries and settings errors other than limits below one.
- The record's lower-cased path suffix is an input of the decision.
- AES-GCM, SHA-256, key derivation and zstd: only the inverse and authenticity laws of AES-GCM are used.
- Base64 decoding rejects a character outside the alphabet, where the library drops it; both end in an undecryptable name for anything but an encrypted name.
- The stale temporary entry scan, and paths below `.tmp` with empty, dot or blank-ended segments.
- DirectoryWalk.CollectDirectory: the start path is one that normalizing leaves as plain segments; at the store's root no name is a blank before a dot segment; keys hold no backslash, as none the adapter writes does; the archive's bytes and the download check are not modelled.
- RagRuns.RunKeepsAccounts: a row whose file is overwritten while its latest registration call is unanswered, or holds the bytes of another file of the user, is not spoken of; the other rows are.
- PrivateWalk.CollectDirectory: paths are lists of names, so the normalization of names with blanks at their ends, which WalkPaths treats, is not part of it; nor are the archive's bytes and the download check.
- DirectoryRename.RenameKeepsRecords: plain sections and renames that finish; an interrupted one is ObjectStoreSpec.StoppedRenameLosesNothing. The old path has no backslash.
- OrdinaryRuns.PrivateRunKeepsLedger: that each store is in shape is kept by every operation of the section's adapter and by archiving, except a rename of a directory to the section's root.
- LinkRepository.Repository.UpsertPending: the race of two inserts for one record.
- FileTransactions.FileService.GetRecordBySectionPath: healing of stale paths.
- EncryptedTree.RenameResolves: an object and a directory never share the renamed key (EncryptedMoves.RenameOfBoth is that case), and old and new path lie apart; a rename into its own subtree is covered by ObjectStoreSpec.MovedObjectsArrive and ObjectStoreSpec.RenameKeepsEverything alone.
- ObjectTree.MkdirIsAdd: segments have no blanks at their ends; otherwise the source normalizes each partial path once more and puts the marker elsewhere, as ObjectStore.S3StorageAdapter.Mkdir states.
- ObjectStore.S3StorageAdapter.List: the sort order and the modification times of the entries.
- ObjectStore.S3StorageAdapter.Write: the returned checksum and the store's limit on the number of parts. A call that raises has changed nothing, so a lost reply to a completed upload is not covered.
- ObjectStore.S3StorageAdapter.CopyByRanges: the store's limit on the number of parts.
- Per-key errors in a quiet delete response, which the source does not read.
- FileTransactions.FileService.OverwriteFile: healing of stale paths; the storage writes of the services appear only as steps that may raise.
- FileTransactions.FileService.UploadZipFolder: directory creation, and how a request whose session was aborted is answered; each entry's failure point is an input.
- First-time creation through an overwrite is not subject to the limit property, because the source asks no quota for it.
- Quota reconciliation, purging of stale uploads, photo uploads through their own service, and updates of the limits.
- Option resolution and the on/off switch of the backfill, and the enqueue functions' own logging and switches.
