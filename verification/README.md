# Backup, restore and course data: a verified model

This project models the parts of the repository whose correctness is hardest to see from the code, and proves what they do.

**Logical backups and point-in-time restore** (`backup-service`). A source database is a write history per table. `CreateBackup` takes full dumps and incrementals of rows changed in a window, lists them in a catalog, and retires old chains. A restore selects a chain, replays it through the emitted SQL and sweeps soft deletes. The model keeps the delay between the server time a backup records and the instant its rows are read. Its main results, over every serial run of backup attempts with any settings, force flags, failures and cleanups:

- a restored key has its true row at the target instant **if and only if** that version survived until the backup responsible for it was read (`PointInTime.RestoreIsExactIff`, `Replay.ReplayExactIff`); without read delay this becomes the window rule of `PointInTime.RestoreWithoutDelay`, and restoring to any listed snapshot gives exactly a full dump (`PointInTime.RestoreToSnapshotIsDump`);
- an apply script commits its tables in name order up to the first one with a row that a unique index rejects or a foreign key that does not resolve yet, and goes through **if and only if** there is none (`ApplyLaws.ScriptCommitsIff`); what it then leaves is that replay (`RestoreTheorem.ScriptsReplay`);
- the soft-delete sweep, in any order of the tables, is one deletion with all its cascades and cleared references (`Sweep.SweepIsOneDeletion`, by the confluence in `ForeignKeys.DeletedTwice`);
- together, a key of a tracked table is right after a restore **if and only if** its live version was captured, no chain of cascades leads from it to a swept row and no parent of a SET NULL column of it goes, or it is not live and the replay brought nothing of it or something that falls (`RestoreTheorem.RestoreIsRightIff`, `RestoreTheorem.RestoreIsRightByWindow`);
- without a target, a key has its row of the last listed snapshot **if and only if** that version was captured, soft-deleted rows included (`RestoreTheorem.LatestIsRightIff`);
- wherever a restore ends, also at an error, the target's references resolve and its unique columns are unique (`Integrity.RestoreKeepsConsistent`), and from directories as they were stored it goes through **if and only if** every incremental fits what the ones before it left (`RestoreProgress.RestoreSucceedsIff`);
- an incremental holds exactly the rows whose largest stamp, in whichever of the three columns, lies in its window (`AttemptLaws.EntryHolds`, `Rows.WindowIff`);
- the catalog stays a sequence of linked chains, retention removes whole chains from the front, and it leaves a selection alone exactly for targets at or after the oldest kept full.

**Backup directories**. Splitting, checksums, the metadata rename, verification and reassembly over a tree of files. The operations of a backup on its directory are a trace, down to single bytes: a crash anywhere before the rename of the metadata is invisible, and after it the listed manifest verifies and reassembles the dump byte for byte (`CommitPoint.CrashSafety`). The assembler's result is independent of map order and of ties **if and only if** the tree is settled (`AssemblyLaws.OutcomeIsUniqueIff`), a second assembly changes nothing **if and only if** no assembled file is named like a part (`AssemblyLaws.AssemblyIsIdempotentIff`), and a second restore of a chain fails **if and only if** one of its members has split files (`SecondRestore.SecondRestoreFailsIff`).

A checksum file guards every file but the bookkeeping: a later tree verifies against it **if and only if** it has all of them with their hashes (`Checksums.WriteThenVerify`).

**The lock**. Triggers, manual backups and restores as interleaved steps of many processes: mutual exclusion, the serial order the restore theorems assume, and progress: a lock that is asked for is granted **if and only if** nobody is working, and none outlives its holder (`LockProgress.AcquiresIff`, `LockProgress.LocksAreFreeIff`).

**Leaderboard and score sheet**, and **the role store**: the grouping loops against sums over the rows, the sheet against the leaderboard, and the two role tables over every sequence of operations: who may do what, and exactly which checks pass afterwards (`RoleEffects.SucceedsIff`, `RoleEffects.JoinGains`).

Times: Go times are integers in nanoseconds, SQL stamps integers in microseconds, directory names carry a kind and a second. Strings stand for byte strings, one char per byte.

## Reading order

| files | about |
|---|---|
| `Rows`, `History`, `Replay`, `ReplayLaws` | one table: change time, write history, what a replay holds |
| `Catalog`, `ChainLaws`, `Cadence`, `AttemptLaws`, `Selection` | the listing: decisions, invariants over runs, what an attempt adds, retention, selection |
| `PointInTime` | from runs of backups to the rows a chain holds |
| `Upsert`, `ForeignKeys`, `ApplyScript`, `ApplyLaws`, `Sweep`, `Integrity`, `RestoreTheorem` | the emitted SQL against the target's constraints, and what a restore is worth |
| `BackupService`, `RestoreService`, `SecondRestore`, `RestoreProgress` | the classes that change the directories and the target in place, and when a restore goes through |
| `FileTree`, `PartNames`, `Splitter`, `PartJoins`, `Assembler`, `AssemblyLaws`, `Checksums`, `Packing`, `PackingLaws`, `CommitPoint` | one backup directory |
| `Locking`, `LockProgress`, `LockedRuns` | processes around the lock file |
| `Leaderboard`, `ExportGrid` | course scores |
| `Roles`, `RoleLaws`, `RoleEffects`, `RoleService` | roles and permissions |
| `SqlText` | quoting |
| `Limits`, `RestoreLimits` | inputs on which the service does less than its name promises |
| `Wrappers`, `Sorting`, `Arithmetic` | shared helpers |

## Assumptions

- Every write of a tracked table stamps its row with its commit time in one of the stamp columns, with no later stamp in the others, and a key is written again only at a later time (`History.WellStamped`). Any number of other keys may be written in the same commit. A table with only a creation stamp, or a transaction that stamps its start time, breaks this in practice.
- Deletes of tracked rows are soft; a hard delete is never captured by an incremental.
- Backup attempts are serial: snapshots strictly increase, each attempt reads no earlier than its snapshot and no later than the next one's, and no two of the same kind take their snapshots in the same second, so that directory names are distinct (`Catalog.Serial`). `LockedRuns.LockMakesRunsSerial` derives the order from the lock.
- Every foreign key has columns and refers to a primary key, is checked when its statement ends, and cascades or sets null on deletion, as in the migrations (002, 004, 009, 018, 020). A column that SET NULL clears belongs to one foreign key and is no stamp (`RestoreTheorem.SettingOk`).
- Inserted rows can be rejected by a unique index or a foreign key only; each captured file holds its rows once, in some order (`ApplyScript.FilesOk`).
- The schema does not change between the backups of a chain (`RestoreTheorem.SameSchema`); a column that is missing on the target is the modelled drift error.
- Hashes are an arbitrary function to strings without spaces and line breaks. The JSON of a metadata file is an arbitrary encoding that parses back. A fresh UUID is a parameter.

## Where the code does less than its documentation

The README of the service promises a restore to a point in time. `Limits.TargetInsideWindowIsMissed` and `Limits.ReadDelayLosesRow` are concrete histories on which the restored row is not the row at that time; the exact condition is `Replay.Captured`. `Limits.RetentionDropsRestorableTime` shows a restorable instant after the retention limit that cleanup gives up. The sweep deletes rows that are live at the target when they cascade from a swept row, as a deadline does from its course (`RestoreLimits.SweepTakesLiveDeadline`). An incremental with a new homework and a deadline of it cannot be applied, because `deadlines` comes before `homework` (`RestoreLimits.NewHomeworkAborts`). A second restore from a backup with split files fails its integrity check (`SecondRestore.SecondRestoreFailsIff`). The assembler's result depends on the order of a map when a part has parts of its own (`RestoreLimits.OrderDecides`). Revoking a course admin takes `course.read` from a participant who had it before (`RoleLaws.StudentLosesCourseRead`). In each case the model follows the code.

## Model

| member | source | states |
|---|---|---|
| `Rows.ChangeTimeIsLast` | backup-service/internal/pg/schema.go:23-34 | the change expression is the largest stamp of the three columns, and NULL iff none is there |
| `Rows.WindowIff` | backup-service/internal/backup/backuper.go:207-215 | a row is captured, as it is, iff its largest stamp is in the window, whichever column holds it |
| `Rows.DropNewerIff` | backup-service/internal/restore/restorer.go:243 | a loaded row is dropped iff one of its stamps is past the bound; without a bound none is |
| `History.SameVersionIff` | backup-service/internal/backup/backuper.go:207-215 | two readers see the same version of a key exactly when no write of it commits between their instants |
| `Replay.ReplayExactIff` | backup-service/internal/restore/restorer.go:60-66 | with any read delays and any target, a replayed key equals its true row at the target iff that version was captured |
| `Replay.SameRowIff` | backup-service/internal/backup/backuper.go:160-164 | a dump read at one instant holds a key's row of another instant iff no write separates them |
| `ReplayLaws.WindowAdvancesDump` | backup-service/internal/backup/backuper.go:207-215 | one window applied to the dump at its start is the dump at its end |
| `ReplayLaws.ReplayIsFullDump` | backup-service/internal/restore/restorer.go:60-66 | without read delay, base and incrementals with no bound, or a bound past the last snapshot, replay to the full dump there |
| `ReplayLaws.ReplayMeaning` | backup-service/internal/restore/restorer.go:240-245 | a key gets its row at the window's end if that is not newer than the bound, else its row at the window's start |
| `ReplayLaws.PastBoundAddsNothing` | backup-service/internal/restore/restorer.go:243-244 | an incremental whose window starts at or after the bound changes nothing |
| `ReplayLaws.NoBoundIsLastSnapshot` | backup-service/internal/restore/restorer.go:294-299 | bound "infinity" and a bound at the last snapshot replay the same rows, with any read delay |
| `ReplayLaws.ReplayedRowsAreGenuine` | backup-service/internal/restore/restorer.go:60-66 | every replayed row was written to its key, no later than the target or the read of the dump |
| `Catalog.Newest` | backup-service/internal/backup/backuper.go:312-319 | the newest snapshot of a chain is attained by a member and bounds all of them |
| `ChainLaws.BaseIndexIsBase` | backup-service/internal/backup/backuper.go:84-93 | every entry's base is the last full backup at or before it in the listing |
| `ChainLaws.SameChainIff` | backup-service/internal/backup/backuper.go:84-93 | two entries share a base exactly when no full backup lies between them |
| `ChainLaws.CreatedKeepsInvariants` | backup-service/internal/backup/backuper.go:42-122 | one attempt, successful or not, keeps the chain links and the captured data |
| `ChainLaws.RunKeepsInvariants` | backup-service/internal/backup/backuper.go:42-122 | over every serial run: time order, parent, since and base links, and the rows each entry holds |
| `ChainLaws.RetentionDropsWholeChains` | backup-service/internal/backup/backuper.go:302-332 | cleanup drops a prefix of the listing made of exactly the chains whose newest snapshot is before the cutoff, and keeps the invariant |
| `ChainLaws.RetentionKeepsNewChain` | backup-service/internal/backup/backuper.go:302-332 | the chain just extended stays when the cutoff is not past the new snapshot |
| `Cadence.LastChainLength` | backup-service/internal/backup/backuper.go:148-153 | the counting loop counts the entries since the last full backup |
| `Cadence.RunIsPeriodic` | backup-service/internal/backup/backuper.go:124-158 | unforced runs are one full and N-1 incrementals, repeating, with failures and cleanups interleaved |
| `Cadence.ChainsAreShort` | backup-service/internal/backup/backuper.go:148-156 | no chain of an unforced run has more than N members |
| `AttemptLaws.DecideIff` | backup-service/internal/backup/backuper.go:124-158 | a backup extends the last entry iff no full is forced and an incremental is, or tracking is on and fewer entries than wanted follow the last full, it included |
| `AttemptLaws.AttemptIsListedIff` | backup-service/internal/backup/backuper.go:42-122 | an attempt that completes is listed last, with its parent, base, window and rows, and any other changes nothing |
| `AttemptLaws.EntryHolds` | backup-service/internal/backup/backuper.go:160-215 | over every run, a full entry holds every table as read, an incremental exactly the rows stamped since the entry before it |
| `AttemptLaws.RetainedIff` | backup-service/internal/backup/backuper.go:302-332 | an entry is kept iff some backup of its chain is at most the given number of 24-hour days old |
| `Selection.SelectChain` | backup-service/internal/restore/restorer.go:92-128 | the two loops compute the functional selection, error cases included |
| `Selection.SelectionIsPlan` | backup-service/internal/restore/restorer.go:101-127 | no base iff no full is at or before the target; else the latest such full and the entries right after it, whose windows tile the time up to the last one |
| `Selection.RetentionKeepsSelection` | backup-service/internal/backup/backuper.go:302-332 | a cleanup that removes something leaves the selection unchanged iff the oldest kept full is at or before the target |
| `PointInTime.RestoreIsExactIff` | backup-service/internal/restore/restorer.go:39-66 | over every serial run and target: error iff no full is at or before it, and exactness of each key iff its version was captured |
| `PointInTime.LatestIsExactIff` | backup-service/internal/restore/restorer.go:39-66 | a restore to latest finds a base whenever something is listed, and is exact for the last snapshot iff captured |
| `PointInTime.RestoreToSnapshotIsDump` | backup-service/internal/restore/restorer.go:115-127 | without read delay, restoring to any listed snapshot gives the tables of a full dump there |
| `PointInTime.RestoreWithoutDelay` | backup-service/internal/restore/restorer.go:60-66 | without read delay, the window rule for every key, target and run |
| `PointInTime.UntrackedTableIsBaseDump` | backup-service/internal/backup/backuper.go:166-177 | a table without tracked columns is restored as the base's dump read it, whatever the target |
| `Upsert.BuildUpsert` | backup-service/internal/restore/restorer.go:301-317 | the loop lists the non-key columns, and falls back to DO NOTHING when there are none |
| `Upsert.ConflictColumn` | backup-service/internal/restore/restorer.go:301-317 | on conflict the non-key columns of the list take the new values and every other one stays |
| `Upsert.UpsertReplacesRow` | backup-service/internal/restore/restorer.go:301-317 | on conflict, a row of the same key and columns is replaced as a whole |
| `Upsert.UpsertIsApply` | backup-service/internal/restore/restorer.go:240-245 | load, delete past the bound and upsert together are the map update the replay uses |
| `BackupService.ListBackups` | backup-service/internal/backup/metadata.go:200-223 | the sorted listing shows every directory with readable metadata and no other, and is the only such listing in strict time order |
| `BackupService.Backuper.DecideBackup` | backup-service/internal/backup/backuper.go:124-158 | the decision, with force flags, disabled tracking and the counted chain |
| `BackupService.Backuper.CreateBackup` | backup-service/internal/backup/backuper.go:42-122 | one run changes the listing as `AttemptLaws.AttemptIsListedIff` says and keeps the class invariant; the result and each error |
| `BackupService.Backuper.CommitMetadata` | backup-service/internal/backup/backuper.go:112-114 | the metadata makes the new backup the last listed entry |
| `BackupService.Backuper.CleanOldBackups` | backup-service/internal/backup/backuper.go:302-332 | the directories removed are exactly the members of expired chains |
| `BackupService.Backuper.GroupChains` | backup-service/internal/backup/backuper.go:312-319 | the newest and members maps, with no newest entry for a chain at the zero time |
| `BackupService.Backuper.RemoveExpired` | backup-service/internal/backup/backuper.go:320-330 | the removal loops, in any map order |
| `BackupService.ShowsAfterRemoval` | backup-service/internal/backup/backuper.go:320-330 | removing those directories removes exactly their entries from the listing |
| `RestoreService.Restorer.RestoreToTime` | backup-service/internal/restore/restorer.go:39-76 | the target, the error and the directories after a restore, also one that stops half way, which the laws of `RestoreTheorem` and `RestoreProgress` are about; a missing base changes nothing |
| `RestoreService.Restorer.ApplyIncremental` | backup-service/internal/restore/restorer.go:163-183 | a damaged directory or a drifted table leaves the target as it was, an aborted script leaves the tables before it committed |
| `RestoreService.Restorer.OpenDirectory` | backup-service/internal/restore/restorer.go:144-154 | on a settled directory, opens iff it verifies and fits its manifest, and leaves it assembled in place |
| `RestoreService.Restorer.DeleteRows` | backup-service/internal/restore/restorer.go:286 | one DELETE takes exactly the rows that fall with it and clears the SET NULL references to them |
| `RestoreService.Restorer.RunScript` | backup-service/internal/restore/restorer.go:240-245 | the transactions in name order, up to the first that aborts |
| `ApplyScript.InsertIsUpsert` | backup-service/internal/restore/restorer.go:244 | rows inserted one by one in file order, when all are accepted, are the upsert of all |
| `ApplyLaws.TransactionIff` | backup-service/internal/restore/restorer.go:240-245 | a table's transaction commits iff the unique indexes accept its rows and every reference is in the target or loaded no later |
| `ApplyLaws.ScriptCommitsIff` | backup-service/internal/restore/restorer.go:185-247 | a script goes through iff every table passes; else it stops at the first that does not, with the ones before it committed |
| `ApplyLaws.ForwardReferenceAborts` | backup-service/internal/pg/schema.go:79 | a reference to a row that only a later table brings aborts the script |
| `Integrity.PassesIff` | backup-service/internal/restore/restorer.go:240-245 | a table's transaction goes through iff each row, in file order, is like no other on a unique column list, and each reference, read off the columns, resolves |
| `Integrity.RestoreKeepsConsistent` | backup-service/internal/restore/restorer.go:39-76 | wherever a restore ends, every reference resolves and no two rows agree on a unique column list, if that held after the base |
| `RestoreService.Restorer.SweepSoftDeletes` | backup-service/internal/restore/restorer.go:271-292 | the sweep is the deletions of the tracked tables in name order, each with its cascades |
| `Integrity.FallenIsLeast` | internal/db/migration/018_create_student_task_scores.sql:4-6 | what a deletion takes is the least set that holds the deleted rows and what refers to it by a cascading key |
| `Integrity.SurvivorsKeep` | internal/db/migration/004_create_deadlines_table.sql:8 | a surviving row keeps every column but the SET NULL ones that referred to a row that fell |
| `Integrity.NoneRefersToFallen` | internal/db/migration/004_create_deadlines_table.sql:6-8 | no row left refers, through any foreign key, to a row that fell, nor gained a reference |
| `ForeignKeys.AllFell` | internal/db/migration/018_create_student_task_scores.sql:4-6 | deleting round by round what refers to deleted rows removes exactly the rows with a chain of cascades to one of them |
| `ForeignKeys.DeletedTwice` | internal/db/migration/004_create_deadlines_table.sql:6-8 | two deletions with their cascades and cleared references, one after the other, are one deletion |
| `Sweep.SweepIsOneDeletion` | backup-service/internal/restore/restorer.go:271-292 | the sweep does not depend on the order of the tables: it deletes what falls with the rows deleted at or before the bound |
| `Sweep.WantedIff` | backup-service/internal/restore/restorer.go:286 | a deletion leaves a wanted row iff it was there, does not fall and loses no parent, and none iff there was none or it falls |
| `RestoreTheorem.ScriptsReplay` | backup-service/internal/restore/restorer.go:185-247 | the scripts of a chain compute the replay of its rows |
| `RestoreTheorem.ReplaysTable` | backup-service/internal/restore/restorer.go:39-66 | before the sweep a restored tracked table is its replay, whatever the target held before |
| `RestoreTheorem.RestoredIsOneDeletion` | backup-service/internal/restore/restorer.go:68-72 | the restored database is the replay less one deletion with all its cascades |
| `RestoreTheorem.RestoreIsRightIff` | backup-service/internal/restore/restorer.go:39-76 | from the source's writes to the target's rows: for every key, captured or not, exactly when it is right after a restore |
| `RestoreTheorem.RestoreIsRightByWindow` | backup-service/internal/restore/restorer.go:39-76 | the same without read delay, by the row the last window leaves |
| `RestoreTheorem.CapturedKeysAreRestored` | backup-service/internal/restore/restorer.go:39-76 | a captured key is present after the sweep iff it is live and nothing it cascades from is swept, with its true row iff it loses no parent |
| `RestoreTheorem.LatestIsRightIff` | backup-service/internal/restore/restorer.go:294-299 | from the source's writes to the target's rows of a restore without a target: the row of the last listed snapshot, soft-deleted or not, iff that version was captured |
| `RestoreTheorem.LatestIsFullDump` | backup-service/internal/restore/restorer.go:56-72 | without read delay, a restore to latest leaves every tracked table as a full dump at the last snapshot |
| `RestoreTheorem.OtherTablesStay` | backup-service/internal/restore/restorer.go:130-161 | a table that no incremental captures is as the base's dump has it, or else as the target had it |
| `RestoreProgress.AppliesIff` | backup-service/internal/restore/restorer.go:163-183 | an incremental applies iff its directory opens, no table drifted and every table passes; each error is true to its reason |
| `RestoreProgress.RestoreSucceedsIff` | backup-service/internal/restore/restorer.go:39-76 | from stored directories, a restore goes through iff the dump left a file in data/ and each incremental fits what the ones before it left |
| `SecondRestore.SecondRestoreFailsIff` | backup-service/internal/restore/restorer.go:144-154 | after a successful restore, the same restore again fails iff a member of the chain has split files, and otherwise does the same |
| `SecondRestore.RestoreTwice` | backup-service/internal/restore/restorer.go:39-76 | the restorer run twice fails the second time iff a selected member has split files |
| `RestoreLimits.SweepTakesLiveDeadline` | internal/db/migration/004_create_deadlines_table.sql:6 | a course deleted before the target takes its live deadline with it |
| `RestoreLimits.NewHomeworkAborts` | internal/db/migration/020_set_deadlines_homework_id_not_null.sql:5-6 | a window with a new homework and its deadline aborts, with `courses` committed |
| `Limits.TargetInsideWindowIsMissed` | backup-service/internal/restore/restorer.go:243-244 | a run and a target inside its window whose row is not restored |
| `Limits.ReadDelayLosesRow` | backup-service/internal/backup/backuper.go:56-59 | a run that loses a row between the snapshot time and the read |
| `Limits.RetentionDropsRestorableTime` | backup-service/internal/backup/backuper.go:320-321 | a run whose cleanup makes an instant after the retention limit unrestorable |
| `PartNames.PartNameParses` | backup-service/internal/backup/splitter.go:32 | a printed part name is recognised and gives back its file and number, for any file name and any int64 number |
| `PartNames.IsPartIff` | backup-service/internal/backup/metadata.go:32-36 | a name is a part's iff it ends in the suffix and at least three digits |
| `PartNames.PartParses` | backup-service/internal/restore/assembler.go:127-138 | any such name gives back its file and its number, 0 past int64 |
| `PartNames.PrintedLength` | backup-service/internal/backup/splitter.go:32 | a number is printed with three digits, or as many as it takes |
| `PartNames.PartMatchIsLast` | backup-service/internal/restore/assembler.go:127-138 | the part pattern can only match at the last occurrence of the suffix, where the parser looks |
| `Splitter.ChunksPartition` | backup-service/internal/backup/splitter.go:29-56 | the pieces join to the file; all but the last are full, none is empty |
| `Splitter.ChunkCount` | backup-service/internal/backup/splitter.go:29-56 | there are ceil(size / maxBytes) pieces |
| `Splitter.FileSplitter.SplitFile` | backup-service/internal/backup/splitter.go:22-62 | the loop leaves exactly the parts and removes the original, also when the last part opened stays empty, by this sequence of operations |
| `Splitter.ExecSplit` | backup-service/internal/backup/splitter.go:22-62 | the operations of the splitter, run one by one, leave exactly the parts |
| `Packing.SplitLosesOnlyEmptyFile` | backup-service/internal/backup/splitter.go:47-60 | a split file leaves parts iff it was not empty |
| `Packing.Packer.SplitLargeFiles` | backup-service/internal/backup/backuper.go:254-300 | every file over the limit is replaced by its parts, nothing else changes, and the manifest describes exactly those files, in the order they were split |
| `Packing.PackedBySize` | backup-service/internal/backup/backuper.go:262-275 | exactly the files over the limit are replaced, by parts within it, and none over the limit is left but metadata |
| `Packing.ExecSplitAll` | backup-service/internal/backup/backuper.go:278-298 | the operations of splitting all of them leave the directory packed |
| `Assembler.FileAssembler.AssembleOne` | backup-service/internal/restore/assembler.go:93-125 | the original becomes the parts in number order and the parts go; failure touches only the original |
| `Assembler.LastEntryCounts` | backup-service/internal/restore/assembler.go:27-30 | of two manifest entries for one file the later one counts |
| `Assembler.GroupParts` | backup-service/internal/restore/assembler.go:32-51 | the walk groups exactly the parts of each file, in any order |
| `Assembler.FileAssembler.AssembleFiles` | backup-service/internal/restore/assembler.go:26-91 | success on any tree means an outcome of some order, in which every manifest file that is no part of another has its size and hash; on a settled tree success happens iff it can, with a determined result |
| `PartJoins.JoinIsUnique` | backup-service/internal/restore/assembler.go:93-113 | the joined bytes do not depend on how equal part numbers are sorted when they commute |
| `AssemblyLaws.AssemblableMeans` | backup-service/internal/restore/assembler.go:53-90 | a tree fits a manifest iff every file of it has as many parts as recorded, joining to its size and hash, or is whole with both |
| `AssemblyLaws.OutcomeIsAssembled` | backup-service/internal/restore/assembler.go:53-75 | on a settled tree every order gives the same description: files with parts are joined, the rest stays |
| `AssemblyLaws.OutcomeIsUniqueIff` | backup-service/internal/restore/assembler.go:53-75 | the assembled tree is independent of map order and ties iff no part has parts and equal numbers commute |
| `AssemblyLaws.AssembledFitsAgain` | backup-service/internal/restore/assembler.go:26-91 | what a successful run left fits the manifest again |
| `AssemblyLaws.AssemblyIsIdempotentIff` | backup-service/internal/restore/assembler.go:26-91 | assembling again changes nothing iff no assembled file is itself named like a part |
| `AssemblyLaws.AssembleTwice` | backup-service/internal/restore/assembler.go:26-91 | a second run after a successful one succeeds and leaves the tree as it is |
| `RestoreLimits.OrderDecides` | backup-service/internal/restore/assembler.go:53-75 | a tree with two outcomes, by the order of the map |
| `Checksums.ContentParses` | backup-service/internal/backup/metadata.go:91-112 | the written file splits back into its lines |
| `Checksums.SumLineParses` | backup-service/internal/backup/metadata.go:116-122 | a line splits into its hash and path even when the path contains double spaces |
| `Checksums.LineHoldsIff` | backup-service/internal/backup/metadata.go:112-131 | a line holds iff it is empty or its first double space separates the hash from a file that has it; a malformed line never does |
| `Checksums.VerifyIff` | backup-service/internal/backup/metadata.go:103-136 | verification of any later tree succeeds iff every recorded path has its recorded hash |
| `Checksums.ChecksumFile.WriteChecksums` | backup-service/internal/backup/metadata.go:64-101 | one line for every recorded file, through a temporary name; which files that are is `WrittenVerifiesIff` |
| `Checksums.WrittenVerifiesIff` | backup-service/internal/backup/metadata.go:73-85 | against the written file, a tree verifies iff it has every file not named SHA256SUMS, backup_metadata.json or its .tmp, with its hash |
| `Checksums.WriteThenVerify` | backup-service/internal/backup/metadata.go:64-136 | the same of the two operations, one after the other, with any tree in between |
| `Checksums.ChecksumFile.VerifyChecksums` | backup-service/internal/backup/metadata.go:103-136 | no file, some line failing, or intact |
| `PackingLaws.PartsOfSplit` | backup-service/internal/restore/assembler.go:93-115 | a split file has exactly its printed parts, and in number order they join to its bytes |
| `PackingLaws.PackedIsAssemblable` | backup-service/internal/restore/assembler.go:53-90 | a packed directory assembles against its own manifest |
| `PackingLaws.AssemblyRestoresDump` | backup-service/internal/restore/assembler.go:26-91 | any assembly of a packed directory is the dump byte for byte |
| `PackingLaws.VerifiesAgainIffUnsplit` | backup-service/internal/restore/assembler.go:119-123 | the reassembled directory matches its checksums iff no file was split |
| `PackingLaws.StoreFiles` | backup-service/internal/backup/backuper.go:98-114 | the file steps of a backup leave a finished directory whose metadata records the split files, by this sequence of operations |
| `PackingLaws.RestoreFiles` | backup-service/internal/restore/restorer.go:144-154 | verification and assembly of a finished directory succeed and give the dump back; verifying again succeeds iff nothing was split |
| `CommitPoint.QuietUntilRename` | backup-service/internal/backup/metadata.go:174-186 | no operation of a backup but the last creates the metadata file |
| `CommitPoint.ExecBackup` | backup-service/internal/backup/backuper.go:84-114 | all operations of a backup together leave the packed dump, its checksums and its metadata |
| `CommitPoint.CrashSafety` | backup-service/internal/backup/backuper.go:68-114 | stopped after any number of operations, byte by byte: the listing is unchanged before the rename; after it exactly the new entry is added, and its directory verifies and reassembles the dump under the manifest listed |
| `Locking.RunKeepsInv` | backup-service/internal/scheduler/scheduler.go:65-104 | over every interleaving the holder's handle, FileLock field, mutex and lock agree |
| `Locking.MutualExclusion` | backup-service/internal/lock/lock.go:24-44 | at most one thread of any process is between TryAcquire and Release; that one gets there is `LockProgress.AcquiresIff` |
| `Locking.ReleaseFreesOwnHandle` | backup-service/internal/lock/lock.go:65-76 | the holder's Release unlocks the handle it acquired and nobody else's |
| `Locking.SkippedTriggersChangeNothing` | backup-service/internal/scheduler/scheduler.go:67-80 | a thread that does not hold the lock changes neither the holder nor the captures |
| `Locking.CapturesAreSerial` | backup-service/cmd/backup-service/main.go:167-175 | captures of all processes read one after the other |
| `LockProgress.LocksAreFreeIff` | backup-service/internal/lock/lock.go:65-76 | over every interleaving and crash, the file lock is free iff no thread works, a daemon's mutex iff none of its threads is busy |
| `LockProgress.TriggerGoesOnIff` | backup-service/internal/scheduler/scheduler.go:65-71 | a trigger goes on to the file lock iff no other thread of its daemon is busy |
| `LockProgress.AcquiresIff` | backup-service/internal/lock/lock.go:24-44 | a thread that asks for the file lock works, by a new handle of its own that is then the holder, iff no thread of any process does; otherwise it gives up with the mutex free |
| `LockProgress.NextRunAcquires` | backup-service/internal/scheduler/scheduler.go:67-85 | after a release the next trigger of any otherwise idle daemon reaches its work |
| `LockProgress.WholeRunCaptures` | backup-service/internal/scheduler/scheduler.go:65-104 | when nobody works, a whole run is captured once, at the times it read, and leaves both locks free |
| `LockedRuns.LockMakesRunsSerial` | backup-service/internal/scheduler/scheduler.go:65-104 | runs under the lock with distinct snapshot times and directory names are serial runs |
| `Leaderboard.GroupRows` | internal/db/repo/course.go:386-421 | the grouping loop summarises every user's rows |
| `Leaderboard.AddScore` | internal/db/repo/course.go:396-420 | one scored row updates the right homework and both totals |
| `Leaderboard.GetLeaderboard` | internal/db/repo/course.go:378-439 | one entry per user with exact totals, homeworks and tasks, by descending total, ranked from 1; the totals add up to all scored rows |
| `Leaderboard.TasksAreRows` | internal/db/repo/course.go:396-418 | the tasks of a homework are the user's scored rows of it, each once and in order |
| `Leaderboard.ShownAsFirst` | internal/db/repo/course.go:386-412 | users and homeworks are shown under the name and title of their first row |
| `Leaderboard.ScoresAreConserved` | internal/db/repo/course.go:378-439 | between rows and entries no score is lost or counted twice |
| `ExportGrid.LessIff` | internal/service/course.go:353 | titles are ordered by the first byte in which they differ, a prefix first |
| `ExportGrid.BuildSheet` | internal/service/course.go:339-387 | the header with its titles, and per entry a row with its name, its total and a cell in each of its homeworks' columns and no other; no cell written twice |
| `ExportGrid.ExportScores` | internal/service/course.go:325-387 | on a course's rows, every row of the sheet adds up to its Total cell |
| `ExportGrid.ColumnsCoverTotal` | internal/service/course.go:376-387 | columns that cover distinct homeworks lose nothing and count nothing twice |
| `RoleLaws.StepKeepsInv` | internal/db/migration/011_fix_user_roles_uniqueness.sql:6-10 | every operation keeps roles unshared and every permission on a live role |
| `RoleLaws.RunKeepsInv` | internal/db/repo/role.go:39-80 | the same over every sequence of operations |
| `RoleLaws.StepTouchesOnlyItsTarget` | internal/db/migration/011_fix_user_roles_uniqueness.sql:6-10 | an operation leaves every role but the one it is about as it was: other users of the course, other courses, the global scope |
| `RoleLaws.StepTouchesOnlyItsScope` | internal/service/admin_role.go:163-249 | in particular it leaves every role of every other scope, and its permissions, as they were |
| `RoleEffects.PassesIff` | internal/service/permission.go:65-97 | a check passes by the role in the scope, or in a course by the global is_super_admin |
| `RoleEffects.SucceedsIff` | internal/service/admin_role.go:57-216 | each operation succeeds iff the actor has the permission it names, what it is about exists, and a new role draws a fresh identifier |
| `RoleEffects.RefusalsDoNotTell` | internal/service/admin_role.go:57-216 | a hidden course is not found by anyone; who lacks the permission is told that, whether the user or role exists or not |
| `RoleEffects.JoinRefusedBecause` | internal/service/course.go:243-286 | which refusal joining gives, by its first reason |
| `RoleEffects.JoinGains` | internal/service/course.go:268-280 | who joins passes the six student checks and those passed before, and no others |
| `RoleEffects.CreateGains` | internal/service/course.go:148-150 | the creator passes the seventeen admin checks more, and no others |
| `RoleEffects.AssignGains` | internal/service/admin_role.go:73-79 | so does who is assigned |
| `RoleEffects.AddGains` | internal/service/admin_role.go:163-190 | one permission more for the one user who has the role, and no other |
| `RoleEffects.RemoveLoses` | internal/service/admin_role.go:192-216 | that check passes for a global super admin only, every other as before |
| `RoleEffects.RevokeTakes` | internal/service/admin_role.go:104-123 | of the admin checks a revoked user passes those of a global super admin, of the others the same as before |
| `RoleEffects.RemoveEnds` | internal/service/admin_role.go:125-145 | a removed participant passes a check of the course only as a global super admin |
| `RoleEffects.SuperAdminGains` | internal/service/permission.go:65-97 | a new super admin passes the four global checks more, and every check of every course |
| `RoleLaws.StepGrantsGlobal` | internal/service/admin_role.go:86-102 | a global permission is gained only through CreateSuperAdmin by a holder of super_admin.create |
| `RoleLaws.SuperAdminsAreMade` | internal/service/admin_role.go:86-102 | over every run, each new super admin was made by such a step |
| `RoleLaws.NoCreatorNoGlobals` | internal/service/permission.go:65-97 | if nobody holds super_admin.create, nobody ever gains a global permission |
| `RoleLaws.RevokeUndoesAssignIff` | internal/service/admin_role.go:104-123 | revoking undoes assigning iff the role had none of the admin permissions before |
| `RoleLaws.StudentLosesCourseRead` | internal/service/permission.go:110-143 | after a revocation a participant can read the course only as a super admin |
| `RoleService.RoleRepository.AssignRoleWithPermissions` | internal/db/repo/role.go:39-66 | the upsert with its permissions, refused when another row has the role |
| `RoleService.RoleRepository.RevokeRoleWithPermissions` | internal/db/repo/role.go:68-80 | removes the role's permissions and exactly its own row |
| `RoleService.RoleRepository.AddPermissions` | internal/db/repo/role.go:141-155 | adds the missing permissions of one role and nothing else |
| `RoleService.RoleRepository.RemovePermissions` | internal/db/repo/role.go:163-169 | removes the listed permissions of one role and nothing else |
| `RoleService.Service.HasScopedPermission` | internal/service/permission.go:65-97 | the check on the own role, then on the global super admin permission |
| `RoleService.Service.EnsureUserRole` | internal/service/permission.go:169-208 | extends the existing role or inserts the new one |
| `RoleService.Service.JoinCourse` | internal/service/course.go:243-286 | the guards in order; on success the actor was allowed to and passes exactly the student checks more, of a private course by its invite code |
| `RoleService.Service.CreateCourse` | internal/service/course.go:111-153 | the guards in order; on success the creator, who held the global permission, passes exactly the admin checks more |
| `RoleService.Service.AssignCourseAdmin` | internal/service/admin_role.go:57-84 | succeeds iff allowed; the user then passes exactly the admin checks more |
| `RoleService.Service.RevokeCourseAdmin` | internal/service/admin_role.go:104-123 | succeeds iff allowed; the user then passes an admin check only as a global super admin, and any other as before |
| `RoleService.Service.RemoveCourseParticipant` | internal/service/admin_role.go:125-145 | succeeds iff allowed; the user then passes a check of the course only as a global super admin |
| `RoleService.Service.AddPermission` | internal/service/admin_role.go:163-190 | succeeds iff allowed; the one user who has the role then passes that check more, and no other |
| `RoleService.Service.RemovePermission` | internal/service/admin_role.go:192-216 | succeeds iff allowed; the one user who has the role then passes that check only as a global super admin, and any other as before |
| `RoleService.Service.CreateSuperAdmin` | internal/service/admin_role.go:86-102 | only by a holder of super_admin.create; on success the user passes the four global checks more, and every check of every course |
| `SqlText.JoinIdents` | backup-service/internal/sqlutil/sqlutil.go:32-38 | the loop prints the quoted list |
| `SqlText.JoinIdentsLexes` | backup-service/internal/sqlutil/sqlutil.go:24-38 | any list of names reads back from its printed form |
| `SqlText.QualifiedLexes` | backup-service/internal/sqlutil/sqlutil.go:28-30 | a qualified name reads back as its two parts |
| `SqlText.LiteralLexes` | backup-service/internal/sqlutil/sqlutil.go:40-42 | an escaped literal between quotes reads back as the string |

## Left out

- The WAL path, `psql`, `pg_dump`, `pg_restore` and disk checks: external programs; only the meaning of the emitted COPY, DELETE and INSERT statements is modelled.
- HTTP handlers, configuration, metrics, health checks and logging: plumbing.
- The classification loop of `DiscoverCDCTables` and `uniqueLower`: the tracked tables and their stamp columns are given; it would add easy members.
- Totals of `GetCourseBoard`, and CRUD validation of courses, homeworks, tasks, users and sessions: easy members; what validating a course, looking for its slug or inserting it answers is a parameter of `CreateCourse`.
- Failing removals: `os.RemoveAll` in cleanup and `os.Remove` of assembled parts always succeed here; a failure would leave orphaned entries or parts.
- Catalog.NewBackup: dates are not printed; a directory name is a kind and a second, and directories with other names are not modelled.
- Assembler.FileAssembler.AssembleFiles: on trees that are not settled it says which outcomes there are, not which order of the map succeeds against a manifest.
- ForeignKeys.Deleted: NO ACTION and RESTRICT references, which no migration declares, and references to other columns than the primary key are not modelled.
- RestoreService.Restorer.OpenBase: an empty `data` directory is not told from a missing one, because directories are known by their files.
- Check constraints, NOT NULL columns and triggers of the target: rows of the same schema satisfy them.
- Checksums.ChecksumFile.WriteChecksums: the order of the lines is left open; the sort fixes one of the orders the contract allows.
- ExportGrid.BuildSheet: the XLSX encoding is not modelled; the sheet is a map from positions to cells.
- Leaderboard.GetLeaderboard: entries keep the user identifier the service drops, so that its contract can say whose entry it is.
- Concurrency between role requests: the service calls are not one transaction, so runs are sequential.
- `Acquire` with its retry loop, and scheduler start and stop: only the non-blocking path is used by backups and restores.
