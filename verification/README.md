# TigerSetup, modelled in Dafny

A model of the parts of TigerSetup where a mistake would be hard to see, and proofs of what they promise: the
transaction engine that survives a crash at any step, the authenticated reader of the WinGet source, the resolution
of a dependency against a hostile network, and the small scanners, planners and writers around them. Every loop of the
source that updates variables is a method with that loop, proved against a function; what the source promises is then
proved about the function.

`dafny verify dfyconfig.toml` checks the project.

## What the modules model

- `Machine`, `Journal`, `Ledger`, `Engine`: one transaction as the executor, the journal, the rollback and the recovery of
  `crates/tigersetup-engine` run it, from their code. `Machine` gives each operation's mutation, undo record and undo
  as the list of states the disk passes through. `Journal` ties the recorded state of every operation to the disk.
  `Ledger` is what has been committed, commit by commit, and which request made each. `Engine` is the object the runs share: forward walk in commit groups, commit, reverse walk in journal batches,
  recovery, and the install, repair and uninstall runs. A run carries a list of fates; at every journal or mutation
  boundary the next fate says whether the step passes, fails, or the process is killed there.
- `Planner`, `Reconciler`: where the plans come from. `Planner` says what a reconciliation of wanted, owned and found state
  calls for, that any plan of just that can be run, and what is left of a whole history of installs, upgrades and repairs
  after an uninstall, whatever anybody did to the machine in between. `Reconciler` has the loops that collect and order the operations, number their journal batches and
  write the ownership rows, and joins such a history to the commits of the engine.
- `LittleEndian`, `Zip`, `Stored`, `Xml`, `Spaced`, `Base64`, `BlockMap`, `Calendar`, `Source`, `Package`, `Sample`: the
  source package reader, part by part, up to the extraction of the index, and the package a publisher writes. SHA-256, UTF-8
  decoding and the ZIP reader are arbitrary functions; where two byte strings must be equal because their hashes are, the
  conclusion names the two strings that would collide.
- `Mszip`: the MSZIP container over LZ77 tokens.
- `Versions`, `Hex`, `CommandLine`, `Manifest`, `Resolution`, `Hostile`, `Withheld`: the catalog resolution. The network is an
  arbitrary function of the request's number and URL.
- `Template`, `ActionPlans`: placeholder expansion and the plans of custom actions.
- `WingetManifest`: the writer of a WinGet manifest and the rewrite that finalizes one.
- `Ordering`, `FileSet`, `Sources`, `Directories`: the resolved file list and the directories it implies.
- `Text`, `Wrappers`, `Catalog`: strings as the Rust standard library handles them, `Option`/`Result`, and the
  catalog's failure reasons.

## What turned out false

1. A rollback does not always restore the old world: when the staging area is on another volume than a file it backs up,
   the backup is a copy, a kill can cut it short, and a restart that goes forward takes it for whole
   (`Machine.TornBackupIsRestored` is one such run, `Machine.CutShortCopyIsPutBack` the same run of any operation on a
   file). Over every sequence of kills, restarts and undos a rollback restores the file exactly when it is on the same
   volume, or there was no file, or the package carries the bytes already there (`Machine.RestoresExactlyWhen`). The
   engine's results are for exactly those plans: on one volume all, across volumes those that put files only where none
   was or the same bytes were.
2. An error raised after the commit is durable is answered by a rollback of the committed transaction
   (`Engine.CommittedThenRolledBack`). That is so exactly when the fate behind the commit is a failure
   (`Engine.Engine.Commit`), and it leaves the old world under the new installation row: the machine is apart from what the
   row promises exactly when the plan changes the world (`Engine.Engine.Transact`).
3. `crates/tigersetup-catalog/src/winget.rs:13-21` says that a network attacker or a replayed old index cannot change what
   is installed. That is so exactly when all the manifests of the at most three candidates tried, under every index that the
   signature check and the publication bound let through, select one installer between them
   (`Hostile.NoNetworkMattersWhen`, for networks none of whose replies shares its hash with another, published document).
   Otherwise the network chooses: under one index by the manifest it withholds (`Withheld.ManifestPicksTheInstaller`), and
   between two indexes, both fresh enough and each with a single installer, by the package it serves
   (`Withheld.IndexPicksTheInstaller`, with nothing left open in `Sample.TwoPackagesTwoInstallers`). For one accepted index
   it cannot go outside its at most three answers (`Resolution.AnswersArePublished`).
4. `crates/tigersetup-build/src/winget.rs:147-148` calls finalizing idempotent. It is so exactly when no line but the
   rewritten ones ends in a carriage return of its own (`WingetManifest.FinalizeIsIdempotent`); a file whose last line
   ends in a bare carriage return is changed by a second pass (`WingetManifest.SecondPassCanChange`).
5. A field written into a manifest is read back exactly when its value was quoted or has no whitespace at its ends
   (`WingetManifest.FieldIsReadBack`): a tab before a value stays plain and the reader trims it off
   (`WingetManifest.TabIsTrimmed`). The one field the source reads back is `PackageVersion`, and a version a package may
   have never fails (`WingetManifest.VersionIsReadBack`).
6. `TigerSetup-Validation.md:677-683` says that files that were there before and are not TigerSetup's stay. A file in the
   way of an installed one becomes TigerSetup's: it is replaced, owned from then on, and removed by the uninstall
   (`Planner.FileInTheWayIsLost`). A history of runs that ends in an uninstall leaves the machine as it was exactly when no
   package had a file where there was one (`Planner.HistoryRestoresUnlessReplaced`), however often the runs crashed
   (`Reconciler.EngineRestoresUnlessReplaced`).
7. The MSZIP refusal "larger than its declared block length" starts one byte late: a block of two bytes where one is
   declared is accepted (`Mszip.TwoBytesWhereOneIsDeclared`), and in general one byte more is and two are not
   (`Mszip.OneByteMoreIsAccepted`).

## Model

| member | source | states |
|---|---|---|
| Machine.MutationIsRecoverable | crates/tigersetup-engine/src/txn/executor.rs:875-1261 | On one volume, or where no file or the same bytes were before, every state a mutation passes through, first attempt or after a restart, still holds what was there, what the operation leaves, or nothing with a whole backup, touches nothing else, and the last one holds the goal |
| Machine.RecoverableUnlessCopied | crates/tigersetup-engine/src/txn/executor.rs:1263-1396 | Every state a first mutation passes through stays recoverable if and only if it makes no backup of other bytes by a copy |
| Machine.RestoresExactlyWhen | crates/tigersetup-engine/src/win/fs.rs:161-229 | Over every sequence of attempts, each a mutation or an undo cut short anywhere, a final undo puts back what was there if and only if the file is on the same volume, was absent, or holds the very bytes installed |
| Machine.CutShortCopyIsPutBack | crates/tigersetup-engine/src/txn/executor.rs:1263-1396 | Across volumes, for every file operation that replaces or removes other bytes: a kill inside the copy, a restart that goes forward and a rollback do not restore the file |
| Machine.TornBackupIsRestored | crates/tigersetup-engine/src/txn/executor.rs:1263-1396 | A concrete run across volumes in which a cut-short backup is trusted by the forward recovery and a rollback puts the torn bytes back |
| Machine.UndoingRestores | crates/tigersetup-engine/src/txn/rollback.rs:134-244 | Under the same condition undoing from any recoverable state is possible, touches nothing else, stays recoverable at each state and ends in what was there before |
| Machine.OthersChangesStay | crates/tigersetup-engine/src/txn/executor.rs:875-1396 | On any disk: a value that is neither what was written nor what is to be put back, a file that is not the one a restart was to remove, and a directory with something in it are left as they are, forward and back |
| Machine.DoneIsNotRepeated | crates/tigersetup-engine/src/txn/executor.rs:1263-1396 | On any disk: what is already done, forward or back, takes no further step |
| Machine.ReplacedAtOnce | crates/tigersetup-engine/src/win/fs.rs:161-200 | A file that is replaced is the old one or the new one at every instant, changes in one step on one volume, and its old bytes are in the staging area afterwards |
| Machine.BackupIsMovedOrKept | crates/tigersetup-engine/src/win/fs.rs:201-260 | An undo puts the backup's bytes at the target; the backup is gone exactly if it could be moved to a target that was missing |
| Journal.AfterLook | crates/tigersetup-engine/src/plan.rs:650-1172 | After any number of operations a resource holds the goal of the one operation that addresses it, else what it held |
| Journal.AfterKeepsTree | crates/tigersetup-engine/src/plan.rs:1092-1152 | A plan that creates directories before and removes them after what is in them leaves everything inside a directory that exists |
| Planner.ReconciledIsOk | crates/tigersetup-engine/src/plan.rs:650-1172 | Whatever is wanted, owned and found, a plan of just what that calls for addresses each resource once, makes directories before and removes them after what is in them, and puts nothing into a directory that is not there |
| Planner.ReachedIs | crates/tigersetup-engine/src/plan.rs:690-780 | Afterwards each resource holds what its call leaves there, and everything not called for what it held |
| Planner.WantedFileIsThere | crates/tigersetup-engine/src/plan.rs:690-780 | On any machine: a wanted file is there with the package's bytes, however damaged it was found |
| Planner.WantedDirectoryIsThere | crates/tigersetup-engine/src/plan.rs:393-433 | On any machine: the install root and every directory around a wanted file are there |
| Planner.WantedValueIsThere | crates/tigersetup-engine/src/plan.rs:1577-1606 | On any machine: a wanted value holds the package's data afterwards, or what was found if the installation wrote it, somebody made something else of it and the run may not write over that |
| Planner.WantedValueIsRecorded | crates/tigersetup-engine/src/plan.rs:1567-1623 | Its row keeps what was written last where somebody made something else of it, else the package's data, and what its removal puts back is what it put back before, else what was found |
| Planner.InPlaceIsKept | crates/tigersetup-engine/src/plan.rs:690-780 | A repair plans no more than to keep a file, value or directory that is in its place |
| Planner.ChangedIsNotPlanned | crates/tigersetup-engine/src/plan.rs:1626-1688 | No operation is planned for what is not wanted and not owned, or owned and changed by somebody |
| Planner.OrderMeans | crates/tigersetup-engine/src/plan.rs:650-1172 | A plan has directories, shallow ones first, then files, then values, then what goes: values, files, directories, deep ones first |
| Planner.RemovalIsConservative | TigerSetup-Design.md:481-545 | What is not wanted is left alone, or is owned and goes: a file or value only with just what was written in it, a directory only if it was created and nothing is in it |
| Planner.ModifiedIsPreserved | crates/tigersetup-engine/src/plan.rs:1665-1688 | A file somebody changed stays, and every directory around it |
| Planner.CreatedGoesWhenEmpty | crates/tigersetup-engine/src/plan.rs:1690-1718 | Whoever put whatever where: a directory that was created and is not wanted any more goes if and only if nothing is left in it |
| Planner.ReconciledIsOver | crates/tigersetup-engine/src/state/journal.rs:765-880 | The rows a commit writes are true again: each owned file, directory and value is there as recorded, and what its removal puts back is what was there before the first install |
| Planner.HistoryIsUndone | TigerSetup-Design.md:481-545 | Over every history of runs, whatever anybody did to the machine between them, of what the last run does not want: a file that is still the installation's bytes goes, a value it still holds gets back what it was the last time it was not the installation's, what somebody changed stays as they left it, and a directory stays if and only if it was there before it was the installation's or has something in it |
| Planner.UndisturbedIsUndone | TigerSetup-Design.md:519-545 | Over every history of installs, upgrades and repairs ending in an uninstall, with nobody else at the machine, each file, directory and value is back as it was before the first, except that no file is left where any of the packages had one |
| Planner.HistoryRestoresUnlessReplaced | TigerSetup-Validation.md:677-683 | After such a history the machine is as it was if and only if no package had a file where there was one |
| Planner.FileInTheWayIsLost | TigerSetup-Validation.md:677-683 | For every content: a file in the way of an install is gone after the uninstall |
| Reconciler.Reconcile | crates/tigersetup-engine/src/plan.rs:650-1172 | The plan collected by the loops is of just what is called for, can be run, and is in journal batches |
| Reconciler.DirectoriesFor | crates/tigersetup-engine/src/plan.rs:393-433 | The install root and every directory around a wanted file, shallow ones first |
| Reconciler.EarlierIsOrder | crates/tigersetup-engine/src/plan.rs:421-430 | Folded paths compared component by component are an order that tells any two apart, as the sorting loops ask |
| Reconciler.FilesToRemove | crates/tigersetup-engine/src/plan.rs:1665-1688 | The owned files that go, and exactly the directories that stay with a file somebody changed |
| Reconciler.DirectoriesToRemove | crates/tigersetup-engine/src/plan.rs:1690-1718 | Exactly the owned directories that were created, are not wanted and stay with no changed file |
| Reconciler.AssignBatches | crates/tigersetup-engine/src/plan.rs:173-198 | Two operations share a batch if and only if everything between them that is not kept has their key |
| Reconciler.KeysMean | crates/tigersetup-engine/src/plan.rs:173-198 | Two operations have one key exactly if they are on files packed in one batch or both in none, or both on directories, or both on values |
| Reconciler.RecordOwnership | crates/tigersetup-engine/src/state/journal.rs:808-880 | The loop over the operations writes a row for each resource wanted and no other, with what its removal puts back |
| Reconciler.ReconcilingPlannerIsOk | crates/tigersetup-engine/src/lib.rs:1098-1283 | A planner that reconciles is one every run of the engine may be given, on one volume |
| Reconciler.CommitsAreUndisturbed | crates/tigersetup-engine/src/state/journal.rs:722-880 | The engine's commits, none undone, are runs that each find the machine as the one before left it, up to the world that stands |
| Reconciler.EngineRestoresUnlessReplaced | TigerSetup-Validation.md:677-683 | Whatever runs crashed and were recovered: with no transaction open, the row gone and no commit undone, the machine is as it was before the first commit if and only if no package had a file where there was one |
| Journal.MutationWalks | crates/tigersetup-engine/src/txn/executor.rs:618-660 | With the undo record durable and everything planned before it applied, every state of an operation's mutation keeps the journal's invariant and the last one is the plan's goal |
| Journal.UndoingWalks | crates/tigersetup-engine/src/txn/rollback.rs:66-76 | With everything planned after it restored, every state of an operation's undo keeps the invariant and the last one restores the target |
| Journal.GroupApplyingOk | crates/tigersetup-engine/src/state/journal.rs:666-683 | Recording the undo records of a whole group in one commit, before any of its mutations, keeps the invariant |
| Journal.GroupAppliedOk | crates/tigersetup-engine/src/state/journal.rs:685-697 | Recording a group as applied keeps the invariant once its mutations are on the disk |
| Journal.GroupRevertingOk | crates/tigersetup-engine/src/state/journal.rs:698-720 | Marking operations rolling back, failed or rolled back keeps the invariant |
| Journal.AppliedIsAfter | crates/tigersetup-engine/src/txn/executor.rs:1398-1442 | A journal whose operations are all applied stands for exactly the world the plan leads to, bystanders included |
| Journal.UndoneIsOrigin | crates/tigersetup-engine/src/txn/rollback.rs:26-132 | A disk whose every target is restored is exactly the world the transaction started from |
| Engine.OrderCovers | crates/tigersetup-engine/src/txn/rollback.rs:42-50 | The reverse walk visits every operation that may differ from the origin, last first |
| Engine.OrderMeans | crates/tigersetup-engine/src/txn/rollback.rs:42-50 | The reverse walk goes, last first, through exactly what is neither kept, nor still planned, nor rolled back |
| Engine.Engine.Mutate | crates/tigersetup-engine/src/txn/executor.rs:845-892 | Wherever it is stopped the invariant holds and only its own target moved; done, the target holds the goal |
| Engine.Engine.MutateGroup | crates/tigersetup-engine/src/txn/executor.rs:589-617 | The mutations of one group, in order, each inspecting its target first if an earlier process got to it |
| Engine.Engine.WalkGroup | crates/tigersetup-engine/src/txn/executor.rs:566-617 | Undo records durable, then mutations, then applied records; a fault anywhere keeps the invariant, which says that everything found applying lies in one group of at most eight journal batches |
| Engine.Engine.RunForward | crates/tigersetup-engine/src/txn/executor.rs:475-538 | Done, every operation is applied; stopped anywhere, the invariant holds; without faults it gets there |
| Engine.Engine.BuildUnits | crates/tigersetup-engine/src/txn/rollback.rs:42-58 | The units of the reverse walk are the operations with something to undo, last first, each unit the whole of one journal batch that comes together, or one operation |
| Engine.Engine.UndoOne | crates/tigersetup-engine/src/txn/rollback.rs:134-244 | One operation undone from whatever it got to, its own target alone moving |
| Engine.Engine.UndoEach | crates/tigersetup-engine/src/txn/rollback.rs:66-110 | The operations of a unit undone last first, each done one restored; a kill or a failure anywhere leaves a rollback that can be repeated |
| Engine.Engine.FailUndo | crates/tigersetup-engine/src/txn/rollback.rs:75-90 | A failed undo is recorded in two commits, and a kill or failure at either leaves a rollback that can be repeated |
| Engine.Engine.UndoUnit | crates/tigersetup-engine/src/txn/rollback.rs:59-116 | A unit is marked, undone in reverse and marked again; a kill or failure at either mark or between leaves a rollback that can be repeated |
| Engine.Engine.ReverseWalk | crates/tigersetup-engine/src/txn/rollback.rs:59-132 | Unit by unit with a kill or failure possible before every record; done, the world is exactly the one before the transaction |
| Engine.Engine.Rollback | crates/tigersetup-engine/src/txn/rollback.rs:26-132 | Done, the world is exactly the one before the transaction, whatever crashed before, a rollback at any of its own records included; stopped, it can be resumed; the commit of a committed transaction is undone exactly when its first mark is made |
| Engine.Engine.Commit | crates/tigersetup-engine/src/txn/executor.rs:1398-1442 | World, row and list of commits change together in one step, to the world the plan leads to; it fails and yet has committed exactly when the step passes and the next one fails |
| Engine.Engine.Advance | crates/tigersetup-engine/src/lib.rs:1336-1343 | The forward walk and the commit: either committed with the world the plan leads to, or still open with nothing promised changed |
| Engine.Engine.Transact | crates/tigersetup-engine/src/lib.rs:1286-1366 | The commits grow by this transaction, by it undone, or not at all; finished, the world is the one its plan leads to if it committed and the old one otherwise, and differs from what the row promises exactly when a commit was undone whose plan changes the world |
| Engine.Engine.Begin | crates/tigersetup-engine/src/state/journal.rs:498-567 | Begins with every operation planned, keeps applied, and the invariant true of the world as it is |
| Engine.Engine.Sweep | crates/tigersetup-engine/src/txn/recovery.rs:166-195 | Removes only backups no journal row refers to: under the invariant, none |
| Engine.Engine.Recover | crates/tigersetup-engine/src/txn/recovery.rs:24-165 | An open transaction goes forward, and is committed, for its own running package alone, and back otherwise; it ends in the new world if it committed and the old one if not; with none open nothing changes |
| Engine.Engine.RunTransaction | crates/tigersetup-engine/src/lib.rs:1098-1283 | Commits, undone or not, just what the planner makes of the world and row it found, or nothing; finished, the world is where that plan leads or the one before; a stop before it begins leaves everything as it was |
| Engine.Engine.Install | crates/tigersetup-engine/src/lib.rs:858-1018 | Recovery, then its own transaction, undone or not, or nothing: an install, upgrade or reinstall as the row after recovery asks, planned on the world after recovery; finished, the world is where the commits lead; without faults it is committed unless up to date, and the row has the package's licence if the run was not quiet and was answered with yes, and else the one it had |
| Engine.Engine.Repair | crates/tigersetup-engine/src/lib.rs:1024-1092 | The same of a repair, which commits nothing without an installation after recovery; without faults the version is the package's, and a quiet run keeps the recorded licence hash |
| Engine.Engine.Uninstall | crates/tigersetup-engine/src/lib.rs:1385-1593 | The same of an uninstall, whose commit leaves no row and no licence; without faults nothing is installed, whatever recovery finished first |
| Engine.Engine.Drive | crates/tigersetup-engine/src/lib.rs:1664-1752 | Over every sequence of runs with faults and kills at any boundary every commit is one request's, by its planner on the world and row that the commits before it left, later ones by later requests, or the transaction found open; with none open the world is exactly where the commits lead, and the row always; a commit is undone only under a failure in some run; the hash on record is the licence of a package whose run was not quiet and was answered with yes, or was held before the first, with no removal committed since; if all runs are quiet it was held before |
| Ledger.RecordedWasAccepted | crates/tigersetup-engine/src/lib.rs:1215-1222 | Of any commits that come from requests: the hash on the row is the licence of a package whose run was not quiet and was answered with yes, and none of the commits after that run's, an uninstall finished by a later run's recovery included, removed the installation; or it was held before all of them and none did |
| Ledger.MadeMeans | crates/tigersetup-engine/src/lib.rs:965-1000 | What a request runs: the plan of its planner for the world and row, as an install, upgrade, reinstall, repair or uninstall as intent and row make it, with the licence accepted in it or else the one on the row |
| Ledger.RowMeans | crates/tigersetup-engine/src/state/journal.rs:765-800 | After a commit the row is its package's version and licence, or none after an uninstall |
| Ledger.QuietBringsNone | crates/tigersetup-engine/src/lib.rs:516-524 | If every run is quiet, no hash is on the row that was not held before the first |
| Engine.CommittedThenRolledBack | crates/tigersetup-engine/src/txn/executor.rs:1426-1441 | A run in which an error after the durable commit rolls a committed installation back, undoing its commit, and leaves the row in place |
| LittleEndian.LeRoundTrip | crates/tigersetup-catalog/src/source.rs:340-348 | The reader of a little-endian integer inverts its writer for every number that fits |
| Zip.FindEnd | crates/tigersetup-catalog/src/source.rs:359-366 | The backward search finds the last end record whose comment reaches the end of the file, and fails only if there is none anywhere |
| Zip.CentralDirectoryNames | crates/tigersetup-catalog/src/source.rs:353-396 | Returns the names of the directory, and reads no more than one record in 46 bytes however large a count is declared |
| Zip.NamesMean | crates/tigersetup-catalog/src/source.rs:353-396 | The names are those of the records, one behind the other, of the directory that the last closing record leads to, through the ZIP64 record where its fields are all ones; every other file is refused |
| Zip.ArchiveIsRead | crates/tigersetup-catalog/src/source.rs:752-799 | For every list of entries within the limits of a ZIP without ZIP64, extra fields and comments included, the walk returns exactly the names written, in order, unless the archive's comment imitates an end record |
| Zip.Archive64IsRead | crates/tigersetup-catalog/src/source.rs:369-380 | The same through the locator and the ZIP64 record for any number of entries and any offset below 2^64 |
| Stored.ArchiveIsStored | crates/tigersetup-catalog/src/source.rs:752-820 | Every entry of a written archive, compressed or not, is reached through its directory record and gives back its name, its compression method, its length and its data |
| Stored.DistinctReadersAgree | crates/tigersetup-catalog/src/source.rs:12-16 | With distinct names two readers that take, of each name, any of its records see the same entries |
| Zip.RefuseDuplicates | crates/tigersetup-catalog/src/source.rs:267-277 | Refuses exactly when two names are equal but for ASCII case and the kind of separator |
| Base64.Base64Decode | crates/tigersetup-catalog/src/source.rs:454-485 | The decoder's loop decodes quad by quad, padding in the last alone |
| Base64.RoundTrip | crates/tigersetup-catalog/src/source.rs:698-718 | Decoding inverts encoding on every non-empty byte string |
| Base64.AcceptedShape | crates/tigersetup-catalog/src/source.rs:465-485 | An accepted text has 4k characters and 3k bytes less the padding, at most two padding characters and those at the very end |
| Base64.EncoderWritesIt | crates/tigersetup-catalog/src/source.rs:454-485 | An accepted text is the encoder's own exactly when its spare bits are zero |
| Xml.StripCommentsLoop | crates/tigersetup-catalog/src/source.rs:591-603 | The loop removes each comment, an unclosed one to the end |
| Xml.CommentGoes | crates/tigersetup-catalog/src/source.rs:591-603 | A comment between two texts is gone and what follows it is scanned on |
| Xml.ElementsLoop | crates/tigersetup-catalog/src/source.rs:614-653 | The scan of start tags with quotes respected, each with its body |
| Xml.TagEndIsFound | crates/tigersetup-catalog/src/source.rs:614-653 | A start tag ends at its first `>` outside quotes |
| Xml.QuotedIsSkipped | crates/tigersetup-catalog/src/source.rs:614-653 | What stands between two quotes of either kind does not end a tag, and behind an unclosed quote nothing does |
| Xml.ElementsRules | crates/tigersetup-catalog/src/source.rs:614-653 | Which elements a text has: a longer name is another's, a tag that never ends ends the search, a tag ending in a slash has no body, and every other one what comes before its closing tag |
| Xml.AttributeLoop | crates/tigersetup-catalog/src/source.rs:657-680 | The scan of an attribute list refuses a malformed one and a name given twice |
| Xml.QuotedIsRead | crates/tigersetup-catalog/src/source.rs:657-680 | An attribute is read with its value between quotes of either kind, up to the next of that kind |
| Xml.UnquotedIsRefused | crates/tigersetup-catalog/src/source.rs:657-680 | A value that is not quoted makes no attribute |
| Xml.DecodedInOnePass | crates/tigersetup-catalog/src/source.rs:682-689 | The five replacements in turn equal one left-to-right pass on every string: nothing is decoded twice |
| Xml.EntitiesAre | crates/tigersetup-catalog/src/source.rs:682-689 | Each of the five entities becomes its character wherever it stands, and every character that opens none is copied |
| Xml.DecodeInvertsEscape | crates/tigersetup-catalog/src/source.rs:682-689 | Decoding inverts escaping on every string |
| Xml.ReadsPrinted | crates/tigersetup-catalog/src/source.rs:657-680 | What is read of a printed attribute list is what choosing from the list gives, duplicates refused |
| Xml.EscapedListIsRecovered | crates/tigersetup-catalog/src/source.rs:657-689 | Every value of a printed attribute list with distinct names is recovered, whatever characters it has |
| BlockMap.PickLoop | crates/tigersetup-catalog/src/source.rs:406-416 | The one element of a name; a second one or malformed attributes are refused |
| BlockMap.VerifyBlockMap | crates/tigersetup-catalog/src/source.rs:403-451 | Accepts exactly the bytes the one element describes by size, block count and block hashes; any refusal is an integrity failure |
| BlockMap.AcceptsMeans | crates/tigersetup-catalog/src/source.rs:403-451 | Bytes are accepted exactly if the map has one file element of the name, every name in it can be read, and that element gives the size of the bytes and block by block the hash of each 64 KiB chunk |
| BlockMap.BlockMapDetermines | crates/tigersetup-catalog/src/source.rs:403-451 | Two byte strings one map accepts for one name are equal, or two of their blocks collide |
| BlockMap.ChunksJoin | crates/tigersetup-catalog/src/source.rs:433-440 | The 64 KiB chunks join to the bytes and are as many as the size says |
| BlockMap.PrintedMapAccepts | crates/tigersetup-catalog/src/source.rs:720-742 | For every list of files with distinct markup-free names the printed map accepts each file with its bytes, through comments, elements, attributes and base64 |
| BlockMap.PrintedMapRefuses | crates/tigersetup-catalog/src/source.rs:720-742 | The printed map accepts no name that is not listed |
| BlockMap.ListedTwiceIsRefused | crates/tigersetup-catalog/src/source.rs:409-416 | A name the printed map lists twice is refused |
| BlockMap.PrintedMapHolds | crates/tigersetup-catalog/src/source.rs:403-451 | The printed map accepts a listed file's own bytes and no others, or a collision |
| Calendar.SuccessorCounts | crates/tigersetup-catalog/src/source.rs:560-567 | The next day is one more across months, years, centuries and 400-year cycles, for every proleptic date |
| Calendar.CountedOneByOne | crates/tigersetup-catalog/src/source.rs:560-567 | The formula is the number of days counted one by one from 1970-01-01 |
| Calendar.EveryDateIsCounted | crates/tigersetup-catalog/src/source.rs:560-567 | Every date from 1970 on is the one reached by counting its number of days |
| Calendar.DaysAscend | crates/tigersetup-catalog/src/source.rs:560-567 | One date is before another exactly when its number is smaller |
| Calendar.PublishedAscends | crates/tigersetup-catalog/src/source.rs:524-557 | Publication times are ordered exactly as the year, month-day and hour-minute numbers of the versions |
| Calendar.FreshnessIsMonotone | crates/tigersetup-catalog/src/source.rs:571-584 | No bound refuses the later of two timed indexes and accepts the earlier |
| Calendar.StampIsRead | crates/tigersetup-catalog/src/source.rs:520-557 | Every moment of the years 2000 to 9999 is read back from the version that encodes it |
| Calendar.MomentMeans | crates/tigersetup-catalog/src/source.rs:520-556 | A version is a time if and only if it has four groups of one to five digits that are a year from 2000 to 9999, the month and day, and the hour and minute of a moment there is, however padded |
| Source.Open | crates/tigersetup-catalog/src/source.rs:267-304 | Opens exactly a package with distinct names, as many entries as the ZIP reader sees and a block map that declares SHA-256 |
| Source.BelievedIsListed | crates/tigersetup-catalog/src/source.rs:306-328 | What is believed of an entry is bytes the signed block map accepts for its name, and every refusal is an integrity failure |
| Source.IdentityIsOfSource | crates/tigersetup-catalog/src/source.rs:491-518 | A manifest is read if and only if, comments stripped, it has one identity with the name and publisher of the WinGet source and a version, and then as that version; every other is refused as a mismatch |
| Source.AcceptedIndexIsChecked | crates/tigersetup-catalog/src/winget.rs:138-146 | What an accepted index has passed: distinct names, a manifest and an index listed by the block map, and in that manifest one identity, of the WinGet source's name and publisher and of the version reported |
| Source.ReadersAgree | crates/tigersetup-catalog/src/source.rs:12-16 | Two accepted packages with one block map, read by any two ZIP readers, give the same identity and index, or two blocks of their two manifests or of their two indexes collide |
| Source.OnePackageOneReading | crates/tigersetup-catalog/src/source.rs:261-304 | Of one package, two ZIP readers that take for each name any record of that name lead to the same block map, identity and index |
| Source.AcceptedIndexIsFresh | crates/tigersetup-catalog/src/source.rs:571-584 | When the version of an accepted index is a time, it is no older than the bound |
| Source.ExtractionFails | crates/tigersetup-catalog/src/source.rs:257-338 | Why a package gives no index: no archive, a manifest that is not the WinGet source's, a time before the bound, and for everything else an integrity failure |
| Package.IdentityIsRead | crates/tigersetup-catalog/src/source.rs:487-518 | A manifest that claims any name, publisher and version, with any comment, is read as that version and its time if the claim is the WinGet source's, and refused as a mismatch if it is any other |
| Package.MapDeclaresSha256 | crates/tigersetup-catalog/src/source.rs:291-302 | Every printed block map passes the check of its hash method |
| Spaced.ReadsLayout | crates/tigersetup-catalog/src/source.rs:657-680 | Attributes separated by any spaces and line breaks are read as the list they were written from |
| Spaced.ReadsClosedLayout | crates/tigersetup-catalog/src/source.rs:614-653 | A self-closing tag laid out over several lines is scanned as one element without a body |
| Package.PackageIsReadBack | crates/tigersetup-catalog/src/source.rs:752-820 | A reader that decompresses what the archive's records lead to sees exactly the files packed and the block map printed |
| Package.PackageIsExtracted | crates/tigersetup-catalog/src/source.rs:737-820 | The whole reader gives the version and exactly the index packed, is stale exactly by the bound, and refuses a package that claims any other name or publisher, over any compression that decompresses |
| Sample.SampleMeets | crates/tigersetup-catalog/src/source.rs:800-820 | All that is asked of a package is met at once, for any two indexes and any moment of the years 2000 to 9999 |
| Sample.SampleIsExtracted | crates/tigersetup-catalog/src/source.rs:571-584 | Such a package gives its own index, or is stale exactly when its moment is before the bound |
| Sample.FirstRecordsIsOk | crates/tigersetup-catalog/src/source.rs:261-304 | A reader that takes the first record of each name is, on every archive, one that is asked for |
| Mszip.WindowSuffices | crates/tigersetup-catalog/src/mszip.rs:75-82 | Decoding any token stream with a 32 KiB window gives what decoding with the whole history gives, failure included |
| Mszip.StepMeans | crates/tigersetup-catalog/src/mszip.rs:75-82 | A token adds its byte, or a copy each byte of which is the one `distance` before it, its own included; a copy from before the output is refused |
| Mszip.Decompress | crates/tigersetup-catalog/src/mszip.rs:40-100 | The loop with its dictionary equals decoding every block over the whole output before it, with the same refusals |
| Mszip.AcceptedIsOneStream | crates/tigersetup-catalog/src/mszip.rs:40-100 | An accepted buffer has the magic number, a header of at least 24 bytes and a block length up to a mebibyte, and is one token stream of exactly the declared length within the bound |
| Mszip.UnpackInvertsPack | crates/tigersetup-catalog/src/mszip.rs:40-100 | For every input and every compressor that decodes the pieces it is given, the decompressor inverts the splitter exactly when its pieces have at most one byte more than the declared block length |
| Mszip.StoredCompresses | crates/tigersetup-catalog/src/mszip.rs:75-82 | Literals alone are such a compressor, for every input and every piece length that fits the length field |
| Mszip.OneByteMoreIsAccepted | crates/tigersetup-catalog/src/mszip.rs:83-97 | One stored block is accepted exactly up to one byte more than its declared length, whatever the length |
| Mszip.TwoBytesWhereOneIsDeclared | crates/tigersetup-catalog/src/mszip.rs:83-97 | Two concrete bytes accepted where one is declared, and three refused |
| Versions.LessIsTotal | crates/tigersetup-format/src/identity.rs:187-190 | Versions are totally ordered by their numbers |
| Versions.LessMeans | crates/tigersetup-format/src/identity.rs:187-191 | One version is lower exactly if it is smaller at the first number that differs, or ends before |
| Versions.NumbersAreRead | crates/tigersetup-format/src/identity.rs:187-191 | A version written from any numbers of 64 bits is those numbers |
| Versions.OtherPartsAreZero | crates/tigersetup-format/src/identity.rs:187-201 | A part of a version with anything but digits behind a sign counts as zero |
| Text.UnsignedIs | crates/tigersetup-format/src/identity.rs:187-201 | A number is read with or without a plus sign, from digits alone, and only in range |
| Resolution.ResolveWith | crates/tigersetup-catalog/src/winget.rs:282-360 | The steps from the package to the candidates tried, each failure ending it, are the resolution the results below are about |
| Versions.NotLowerIsTransitive | crates/tigersetup-format/src/identity.rs:187-190 | The order candidates are ranked by is a total preorder |
| Versions.HigherSatisfies | crates/tigersetup-format/src/identity.rs:205-212 | What satisfies a requirement is closed upwards within its major version |
| Resolution.CandidatesMeet | crates/tigersetup-catalog/src/winget.rs:235-243 | The candidates are exactly the listed versions that have the first number of the minimum and are not less, or all if there is no minimum |
| Hex.Unhex | crates/tigersetup-engine/src/action.rs:85-93 | Accepts exactly even-length hex text and reads it pair by pair |
| Hex.RoundTrip | crates/tigersetup-format/src/lib.rs:90-97 | Decoding inverts encoding |
| Hex.CaseDoesNotMatter | crates/tigersetup-engine/src/action.rs:85-93 | A hex text is read the same in either case |
| Hex.EncodeIsInjective | crates/tigersetup-format/src/lib.rs:90-97 | Two byte strings with one hex text are equal |
| CommandLine.SplitCommandLine | crates/tigersetup-catalog/src/manifest.rs:89-122 | The loop with its quote and token flags gives the words of the recursive reading |
| CommandLine.SplitInvertsPrinted | crates/tigersetup-catalog/src/manifest.rs:86-122 | Every list of argument strings is split back from the command line written for it |
| Text.WhitespaceIs | crates/tigersetup-catalog/src/manifest.rs:89-122 | The white space that scanners and splitters skip, character by character |
| Manifest.Select | crates/tigersetup-catalog/src/manifest.rs:236-317 | The entry chosen, described with its arguments and codes accumulated in order |
| Text.LowerIs | crates/tigersetup-catalog/src/manifest.rs:236-262 | Letters are compared without case by the ASCII alphabet alone |
| Text.Utf8LengthIs | crates/tigersetup-catalog/src/manifest.rs:236-250 | A text is as many bytes as characters exactly if it is ASCII, and at most four times as many |
| Manifest.SelectedIs | crates/tigersetup-catalog/src/manifest.rs:231-317 | There is an installer exactly when an entry fits; it is the one the first entry nearest to the preferred scope describes, field by field, with the arguments, success codes and reboot codes that follow from the entry's fields and the root's |
| Manifest.SelectsIfUsable | crates/tigersetup-catalog/src/manifest.rs:231-266 | There is an installer exactly when some entry, with what it inherits, is usable |
| Manifest.PreferredScopeWins | crates/tigersetup-catalog/src/manifest.rs:231-266 | No entry of the preferred scope is passed over, and none without a scope for one of the other |
| Manifest.SelectedIsFit | crates/tigersetup-catalog/src/manifest.rs:236-317 | A chosen installer has an address, a 64-byte hash in lower case and the architecture asked for, from one entry, and a machine-wide one needs elevation |
| Manifest.InheritanceIsIdempotent | crates/tigersetup-catalog/src/manifest.rs:200-229 | Inheriting twice is inheriting once, and each switch is the entry's own or else the root's |
| Manifest.SwitchesBecomeArguments | crates/tigersetup-catalog/src/manifest.rs:275-283 | Switches written as command lines become exactly their arguments, silent before custom, no silent ones for msiexec |
| Manifest.RebootCodesAreExact | crates/tigersetup-catalog/src/manifest.rs:291-300 | The reboot codes are the type's own and every listed one that fits 32 bits, each once |
| Resolution.RankedIsStableSort | crates/tigersetup-catalog/src/winget.rs:235-243 | Ranking is in descending order, keeps each entry as often as it was and the order of equal versions |
| Resolution.RankingIsUnique | crates/tigersetup-catalog/src/winget.rs:235-243 | Any list in descending order with the same entries of each version is the ranking |
| Resolution.ListsAgree | crates/tigersetup-catalog/src/winget.rs:306-317 | Two networks that both get past the version data lead to the same candidates, or answered its request with two strings of one hash |
| Resolution.TryCandidates | crates/tigersetup-catalog/src/winget.rs:318-360 | The loop over at most three manifests with its remembered error |
| Resolution.AnswersArePublished | crates/tigersetup-catalog/src/winget.rs:282-360 | Under a network whose replies collide with no published document, an answer of the whole resolution is one of the at most three the published documents fix |
| Resolution.AnswerIsTheFirst | crates/tigersetup-catalog/src/winget.rs:330-360 | There is an answer exactly when one of the first three candidates gives it and every higher one was unavailable or had no installer |
| Resolution.AnswerIsAuthentic | crates/tigersetup-catalog/src/winget.rs:282-360 | An answer comes from the signed and fresh index, the version list with the hash of its row, an item of that list whose version meets the requirement, and one of the first three manifests, with the hash of that item and that installer selected out of it |
| Resolution.ListIsReadOrRefused | crates/tigersetup-catalog/src/winget.rs:306-317 | The version list is read if the bytes have the row's hash and can be read; another hash is an integrity failure and everything else is unavailability |
| Resolution.JudgeMeans | crates/tigersetup-catalog/src/winget.rs:318-360 | What becomes of one candidate, from the reply to its request: whether it failed, had the listed hash, could be read and selects an installer |
| Resolution.NoAnswerMeans | crates/tigersetup-catalog/src/winget.rs:330-360 | Without an answer: the failure of the first candidate whose request fails otherwise than by unavailability, or, once all tried were passed over, unavailability if one was unavailable and incompatibility if none was |
| Resolution.NoRowMeans | crates/tigersetup-catalog/src/winget.rs:282-305 | Why there is no index row: the request, the signature, the content or the query failed, the row's hash is none of SHA-256, or the package is not listed |
| Resolution.AtMostThreeAnswers | crates/tigersetup-catalog/src/winget.rs:282-360 | Of any four answers over networks with one accepted index two are the same, or two of the networks answered one named request with two strings of one hash |
| Resolution.HighestAnswers | crates/tigersetup-catalog/src/winget.rs:330-360 | When no manifest fails the answer is the highest version tried that has an installer, and there is none only if none has |
| Resolution.WithholdingLowersTheAnswer | crates/tigersetup-catalog/src/winget.rs:330-350 | For every answer followed by a candidate with an installer, a network that withholds one manifest gets that candidate instead |
| Hostile.NoNetworkMattersWhen | crates/tigersetup-catalog/src/winget.rs:13-21 | No network can change the installer that is installed if and only if all documents published under all the indexes that are let through leave one installer |
| Hostile.InstallAlikeWhenAlike | crates/tigersetup-catalog/src/winget.rs:282-360 | Of two indexes: no two networks, each with its own, install differently if and only if the documents of both leave one installer between them |
| Hostile.NetworkChoosesUnlessOneInstaller | crates/tigersetup-catalog/src/winget.rs:318-360 | The same for one accepted index |
| Withheld.ManifestPicksTheInstaller | crates/tigersetup-catalog/src/winget.rs:318-360 | Over any accepted package, an index of two versions and two networks that deliver only its documents: installed from different addresses, by the manifest each withholds |
| Withheld.IndexPicksTheInstaller | crates/tigersetup-catalog/src/winget.rs:282-360 | Over any two accepted packages with different indexes, each leaving one installer: installed from different addresses, by the package each network serves |
| Sample.TwoPackagesTwoInstallers | crates/tigersetup-catalog/src/winget.rs:13-21 | A whole machine with any hash and two packages of one moment on which that happens, for any two indexes, each leaving one installer and each network delivering its index's documents alone |
| Template.ExpandFor | crates/tigersetup-engine/src/action.rs:223-257 | The loop from percent sign to percent sign equals one pass over the characters |
| Template.ExpandInvertsWrite | crates/tigersetup-engine/src/action.rs:213-257 | Every template of percent-free literals and known placeholders expands to the literals and the values, which are not scanned again |
| Template.PlaceholdersMean | crates/tigersetup-engine/src/action.rs:217-223 | The root's and the version's placeholder, with each letter in either case, and those of the known folders expand to their value |
| Template.UnknownStays | crates/tigersetup-engine/src/action.rs:213-216 | A template is unchanged in which no percent sign is followed by a name of letters, digits, underscores and parentheses, up to the next one, that is known |
| ActionPlans.InstallPlan | crates/tigersetup-engine/src/action.rs:127-154 | The loop puts every declared action in its place, in declaration order |
| ActionPlans.UninstallPlan | crates/tigersetup-engine/src/action.rs:159-183 | Plans the decoded rows, quiescence rows passed over; refuses exactly when another row cannot be decoded |
| ActionPlans.PlannedConserves | crates/tigersetup-engine/src/action.rs:104-122 | Every action is in exactly one place of a plan, as often as it was declared |
| ActionPlans.InstallPlanMeans | crates/tigersetup-engine/src/action.rs:121-154 | An installing run runs before its operations exactly the pre-install actions for this operation whose option has its value, after them the post-install ones, stores exactly the others, and reports each it skips with its reason |
| ActionPlans.UninstallPlanMeans | crates/tigersetup-engine/src/action.rs:156-183 | An uninstall runs exactly the stored actions for an uninstall whose option has its value, the pre-phase ones before, and reports each it skips with its reason |
| ActionPlans.SkipsAreReported | crates/tigersetup-engine/src/action.rs:138-146 | The reported skips are those of the actions left out, one for each, with the reason |
| ActionPlans.OrderIsKept | crates/tigersetup-engine/src/action.rs:121-126 | Each list of a plan keeps the declaration order |
| ActionPlans.DeserializeInvertsSerialize | crates/tigersetup-engine/src/action.rs:60-67 | A definition is read back from its row |
| ActionPlans.RecordedIsDecoded | crates/tigersetup-engine/src/state/journal.rs:906-931 | The rows of a stored list, quiescence rows behind them, decode to that list but for actions of the quiesce phase |
| ActionPlans.CheckActions | crates/tigersetup-format/src/metadata.rs:1278-1294 | Accepts exactly the lists of actions of a transaction's phase, each with operations of that phase, each once, and no name twice but for case |
| ActionPlans.FitMeans | crates/tigersetup-format/src/metadata.rs:1413-1470 | An action is accepted exactly if it is before or after an install and runs on some of its kinds, each once, or before or after an uninstall and runs on that alone |
| ActionPlans.DeclarableMeans | crates/tigersetup-format/src/metadata.rs:1278-1294 | A list is accepted exactly if each of its actions is and no two names are equal but for case |
| ActionPlans.StoredIsForUninstall | crates/tigersetup-format/src/metadata.rs:323-337 | What an installing run stores of an accepted list is of an uninstall phase and runs on an uninstall alone |
| ActionPlans.NothingIsLost | crates/tigersetup-engine/src/state/journal.rs:906-931 | A stored list is read back whole exactly when none of it is of the quiesce phase |
| ActionPlans.StoreIsPartitionedAgain | crates/tigersetup-engine/src/action.rs:127-183 | What an installing run stores of an accepted list the uninstall reads back whole and runs, before or after, each once, but for actions whose option is not set |
| WingetManifest.UnquoteInvertsScalar | crates/tigersetup-build/src/winget.rs:519-569 | Every string is read back from the scalar it is written as |
| WingetManifest.PlainMeans | crates/tigersetup-build/src/winget.rs:531-569 | A value is written without quotes exactly if it is no number and one line, opens no YAML construct, and has no key's colon, comment or blank at an end |
| WingetManifest.BareIsRead | crates/tigersetup-build/src/winget.rs:519-524 | A value that is not between quotes is read as it stands |
| WingetManifest.Finalize | crates/tigersetup-build/src/winget.rs:149-205 | The loop over the lines, with the version check before it and the count of entries |
| WingetManifest.KeyLineMeans | crates/tigersetup-build/src/winget.rs:509-517 | A line is an entry's exactly if it is blanks and dashes, then the key and its colon |
| WingetManifest.EntriesAreCounted | crates/tigersetup-build/src/winget.rs:180-190 | As many entries as lines with an installer's address |
| WingetManifest.OnlyEntriesChange | crates/tigersetup-build/src/winget.rs:186-198 | Line by line only entries change, to the new value at their own indentation; every other line stays, in order |
| WingetManifest.RewriteIsStable | crates/tigersetup-build/src/winget.rs:509-517 | A rewritten line is found again under its indentation and rewritten to itself |
| WingetManifest.FinalizeIsIdempotent | crates/tigersetup-build/src/winget.rs:147-207 | A second pass changes nothing exactly when no other line ends in a carriage return of its own |
| WingetManifest.NoCarriageReturns | crates/tigersetup-build/src/winget.rs:186-198 | A document without carriage returns meets that condition |
| WingetManifest.SecondPassCanChange | crates/tigersetup-build/src/winget.rs:147-148 | A document that a second pass changes |
| WingetManifest.LinesOfWritten | crates/tigersetup-build/src/winget.rs:205-206 | The lines of a written document are the lines written, less the carriage returns a reader takes off |
| WingetManifest.Document.Sequence | crates/tigersetup-build/src/winget.rs:597-605 | Adds the key and one line an item, or nothing for no items |
| WingetManifest.SequenceIsReadBack | crates/tigersetup-build/src/winget.rs:597-605 | Every item is read back from a line of its own |
| WingetManifest.Document.Block | crates/tigersetup-build/src/winget.rs:609-619 | Adds a literal block line by line, paragraph breaks empty |
| WingetManifest.BlockIsReadBack | crates/tigersetup-build/src/winget.rs:609-619 | Every line of a block stands one level further in, a blank one as an empty line |
| WingetManifest.FieldIsWritten | crates/tigersetup-build/src/winget.rs:586-596 | A field is left out exactly if its value is blank, and read back from its line otherwise |
| WingetManifest.FieldIsReadBack | crates/tigersetup-build/src/winget.rs:500-504 | A field of a written document is read back from its text exactly when its value was quoted or has no whitespace at its ends |
| WingetManifest.VersionIsReadBack | crates/tigersetup-build/src/winget.rs:159-164 | A package version of three numbers written as `PackageVersion` anywhere in a document is always read back |
| WingetManifest.TabIsTrimmed | crates/tigersetup-build/src/winget.rs:500-504 | A concrete plain value that is read back without its leading tab |
| WingetManifest.VersionIsInk | crates/tigersetup-format/src/identity.rs:168-185 | A version that passes the check begins and ends with a digit and has no line break |
| WingetManifest.PartMeans | crates/tigersetup-format/src/identity.rs:168-185 | A part of a version is accepted exactly if it is how a number below a milliard is written |
| FileSet.Resolve | crates/tigersetup-build/src/fileset.rs:53-178 | The nested loops succeed exactly when the patterns of each entry parse, each matches something, every match is below its root and either excluded or a valid path of a readable file, and no two packed files clash; then the list is sorted and holds exactly the files of the matches that are not excluded |
| FileSet.ResolvableMeans | crates/tigersetup-build/src/fileset.rs:66-170 | Exactly when the entries resolve: an excluded match is never a reason to refuse |
| FileSet.WantedArePacked | crates/tigersetup-build/src/fileset.rs:115-170 | The files wanted are those of the matches whose path below the root no exclusion pattern matches, each with that path, its source, size and predicate |
| FileSet.TableIsExact | crates/tigersetup-build/src/fileset.rs:66-170 | The entries resolve exactly when each is in order and no two files clash, and then the table holds exactly the files wanted |
| FileSet.WantedAreTheMatches | crates/tigersetup-build/src/fileset.rs:66-170 | The files wanted are those of the entries |
| FileSet.PathsAreDistinct | crates/tigersetup-build/src/fileset.rs:139-160 | No path of the list occurs twice, not even in another case |
| FileSet.OrderDoesNotMatter | crates/tigersetup-build/src/fileset.rs:172-178 | The order of the entries changes neither whether they resolve nor the list |
| Sources.SplitBase | crates/tigersetup-build/src/fileset.rs:22-41 | The components before the first with a glob character, all of them when there is none |
| Sources.GlobMeans | crates/tigersetup-build/src/fileset.rs:22-41 | A component ends the base exactly if it is an ordinary one with a star, question mark, bracket or brace |
| Sources.Walk | crates/tigersetup-build/src/fileset.rs:180-194 | The stack walk returns every file under the directory exactly once, and fails exactly when a directory cannot be read |
| Ordering.SortedIsUnique | crates/tigersetup-build/src/fileset.rs:172-177 | There is one sorted list of a set |
| Directories.DirectoriesOf | crates/tigersetup-build/src/builder.rs:129-145 | Lists exactly the proper ancestors of the files, sorted by depth, then name |
| Directories.SlashesMean | crates/tigersetup-build/src/builder.rs:137-145 | Directories are ordered by how many parts they have |
| Directories.PrefixesAreAncestors | crates/tigersetup-build/src/builder.rs:131-136 | The joined prefixes of a path's parts are exactly its proper ancestors |
| Directories.ParentsComeFirst | crates/tigersetup-build/src/builder.rs:128-145 | Every listed directory occurs once and every directory around it comes before it |

## Left out

- Engine.Engine.Drive: the runs are proved for plans no torn backup of which can be put back, see the first item of "What turned out false"; and nobody else changes the machine while they run or between them. What one run does to whatever it finds is `Engine.Engine.RunTransaction`, what a history of committed runs does is `Planner.HistoryIsUndone`.
- Search path entries, shortcuts, firewall rules, shell profile blocks and registry keys as operations: each is prepared, mutated and undone like the value and directory operations that are modelled.
- The effects of custom actions: the design does not revert them, so they are no part of the world.
- Loss of written data at a power failure: flushing is taken to make a mutation durable before its record.
- Leftover temporaries of a staged file write and their sweep.
- SQLite: the state database is a record updated in whole commits; the index is an arbitrary query.
- WinVerifyTrust and certificate policy: the signature check is an arbitrary predicate on the package bytes.
- WinHTTP, timeouts and cancellation: a network answer may be any failure reason.
- SHA-256, UTF-8, the YAML, TOML and Protocol Buffers parsers, glob matching and floating-point parsing: arbitrary functions.
- Huffman coding and bit packing of DEFLATE: a stream is its tokens, or none.
- Source.ReadersAgree: that the two packages hold the same block map is assumed; for one package, `Source.OnePackageOneReading` derives it from the names being distinct.
- Source.OnePackageOneReading: of a ZIP reader it takes that it returns, for each name, some record the directory lists.
- Package.PackageIsExtracted: decompression is an arbitrary function that gives back the packed bytes.
- Sample.SampleMeets: its decoder of UTF-8 knows just the documents of the run.
- Journal.AfterLook: one operation a resource is a condition of it; that plans meet it is `Planner.ReconciledIsOk`, for the resources `Planner` has.
- Journal.AfterKeepsTree: the nesting order is a condition of it; that plans meet it is `Planner.ReconciledIsOk`, for the resources `Planner` has.
- Reconciler.Reconcile: files, directories and registry values alone; the registration's values, which always win, come after the product's in the source and are the same loop.
- Planner.UndisturbedIsUndone: nobody else changes the machine between the runs; `Planner.HistoryIsUndone` is about histories in which anybody may.
- Reconciler.EngineRestoresUnlessReplaced: the ownership rows are no field of the engine; that each commit wrote the rows of its own reconciliation is a condition of it.
- The recorded size and time that spare a file's hash: they are taken to tell a changed file.
- ActionPlans.CheckActions: the checks of an action's name, kind, program and condition are one arbitrary predicate.
- The text of error messages, the outcome document, progress events and logs.
- The URL and installer file name checks of the finalizer, and reading and writing its file.
- `launch_of`, `judge`, `continues` and the output tail of an action: short functions with one branch a case.
- Metadata validation but for the actions' phases, operations and names, the command line interface, localisation, elevation and the build of the executable.
