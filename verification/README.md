# Verified models of the desktop and sync core

The desktop client captures skill workspaces as content-addressed snapshots, deploys them into the
directories of coding agents, uninstalls them, keeps a bounded cache of their blobs, and syncs them
with a server. The server keeps skills, versions and a change log, answers pushes and pulls, collects
blobs no package needs, trims its log, and arranges users' groups in a tree. These modules model that
core in Dafny and prove what it promises. `dafny verify dfyconfig.toml` checks all of it.

## How it is organised

- **Durable steps.** `Walks` describes an operation as the sequence of durable states it passes through;
  a crash stops it in any of them. `Journals` is the append-only journal file: a torn line may fail to
  parse, or, torn inside a character of several bytes, not be text at all.
- **Deployment.** `Deployment` gives each operation's walk over one target: journal, destination, staging,
  backup and catalog row. `DeploymentRuns` proves an invariant over every life of a target: an install,
  then recoveries and start-ups, each cut anywhere, with the candidate damaged in between.
  `DeploymentTheorems` draws the promises from it, `DeploymentCrashes` shows at reachable states where they
  end, and `DeploymentLateDamage` allows damage at any time while the journal is open. `DeploymentEngines` is the engine step by step, with
  `power` for so many durable steps; each method is tied to its walk. `DeploymentBatch` recovers all
  journals of a root.
- **Uninstall** and `UninstallEngines`: the two-resource protocol over a directory and a catalog row.
- **Snapshots** over `Ordering` and `PortablePaths`: capture, manifest validation, materialization and
  the independent verifier; `SnapshotRules` spells out what is accepted. `PackageManifests` is the server's validation of the JSON document;
  `ManifestAgreement` compares the two validators, and the document the desktop writes with the one the
  server reads.
- **CacheManager** over `CacheTasks`, and **BlobGc**: the two collectors over manifest closures.
- **Skills.** `VersionNames` makes the next version's name; `SkillHistory` specifies each mutation of the one mutation service and proves the history
  faithful over all runs; `SkillMutations` is the service on its tables. `SyncMutations` adds receipts
  and optimistic revisions, with `SyncServers` as the endpoint.
- **Feed.** `SyncCursors`, `SyncFeed`, `SyncTrim`: cursors, pages, the client's drain, trimming.
  `SyncMirror` puts mutations and pulls together: what a device knows when it has caught up.
- **Groups.** `GroupTrees` is the forest, `GroupRoles` the permissions on it, `GroupDirectories` the
  operations that shape it.

Code that works step by step is a class or a method with loops, proved against a specification function;
what is promised is proved about the specification. Lemmas called `...Means`, `...Iff`, `...Is` or `...Are` say
what a specification function comes to in terms of rows, files and characters, without its body.

## Where the code does not do what it or its documentation says

- Repeated collector runs need not converge (`blob_gc.py` line 19): the batch is cut before marks are
  looked at. `RunsConvergeIffNotStarved` gives the exact condition.
- The purge tombstone is meant to clean up mirrors that missed the soft delete (`skill_mutations.py`
  lines 441-443), but the feed ships no row of a skill whose row is gone. `PurgedSkillStaysIff` gives
  the exact condition under which a device keeps a purged skill: the last of its rows the device had pulled
  by then was an upsert. `PurgeMissesAMirror` is a case.
- A cursor of 0 is said to be a full baseline rebuilt from live state (`sync_changes.py` lines 60-61),
  but it is served from the log, so it starts behind whatever was trimmed (`PageIsNext`,
  `SilentGapIff`); and a client that had read exactly what was trimmed is rejected although it missed
  nothing (`RejectedForNothingIff`). `GapsAreReached` gives a run for each.
- Sync create looks a slug up among live private skills while the unique constraint counts all rows, so
  a create under the slug of a trashed skill fails on every retry (`CreateFailsIff`; a run in
  `SlugOfADeletedSkill`).
- No manifest the desktop writes passes the server's validation, although it is there to mirror the
  desktop's (`package_manifest.py` lines 3-6): the desktop writes `formatVersion`, the server looks up
  `format_version`. `VersionKeyDecides` shows that this is all that is in the way; `CapturedIsRejected`.
- The name of the next version is made from the current version, which need not be the highest. Once a version
  of a private skill is named by hand one patch below one that exists, as 0.1.1 after 0.1.2, every sync update at its
  head fails on every retry (`UpdateFailsIff`; a run in `NamesByHandBlockUpdates`), and so does a roll-back.
  Without a version named by hand no update fails for its name (`UpdatesAreAnswered`,
  `OnlyNamesBreakSeries`). Of global skills, which sync does not update, publishing an older version blocks
  later updates that name none (`PublishBlocksIff`).
- A deployment that reports an error may have moved things: an error of the `OldMoved` record, of the rename
  or of the `Activated` record leaves the destination absent or replaced, for recovery to settle.
  `StoppedDeployIff` says exactly when.
- A journal record torn inside a character of several bytes, which a path may hold, is a line that is not
  UTF-8, and both readers then fail whatever records precede it. A deployment whose `OldMoved` record is
  torn so is stuck with no destination and the old tree in the backup slot, and no recovery ever gets past
  it (`TornCharacterStrandsOldTree`, `UnreadableForever`; `GivesUpIff` and `OldAsideRecovers` give the exact
  condition). An uninstall is stuck with the row present and the tree in quarantine, exactly if the `Moved`
  record was torn so (`StrandedIffCutInCharacter`, `TornCharacterStrandsUninstall`).
- A line torn elsewhere swallows the next record. One torn `OldMoved` record leaves a deployment committed
  whose journal can neither be acknowledged nor recovered (`TornRecordStrandsJournal`); an `Activated` record
  without its newline is lost as well (`OpenActivatedIsLost`). `CommitClosesIff` gives the exact condition.
- Once the backup has begun to go, damage to the destination makes recovery restore what is left of the
  backup (`RemnantIsRestored`). And a first install whose `Activated` record was lost is rolled back even after
  its catalog row was written, which leaves the row without a tree (`RowIsLeftWithoutTree`). A roll-back is
  faithful exactly if no removal had begun and the row is as it was (`LateRollBackIsFaithfulIff`).
- Trimming relies on creation times that do not go back. `TrimsTailsIff` shows that it does so exactly.
- The decoder of cursors accepts spellings the encoder never writes (`CanonicalIff`); the server accepts
  hashes in listings that end in a newline and paths with DEL or a C1 control (`DesktopAndServerAgree`,
  `ServerTakesMore`).

## Assumptions

A digest stands for what it digests, so hashes are collision-free, and manifests are logical values: no
claim is made about JSON bytes, only about the keys of the documents. Durable primitives take effect in order. The snapshot being
deployed keeps a manifest that can be read from the blob store for the whole life of the deployment: the
source's verification also fails, and rolls back, when it cannot. Each server request is one
atomic transaction. Deployments to one destination do not overlap: at most one journal is open for it.
In `DeploymentRuns` the candidate tree is damaged only while the old tree is whole in the backup, or, for
a first install, while the row is as it was; `DeploymentLateDamage` drops this as long as the journal is open.
What a removal leaves half-way is not the whole tree. Change-log sequences are never reused, which on SQLite, whose
keys restart when a table was emptied, holds as long as the log is not trimmed to nothing.

## Model

| member | source | states |
|---|---|---|
| Journals.ReadMeaning | frontend/src-tauri/src/deployment.rs:505-535 | Reading a journal gives the last record before any line that does not parse; it fails where there is none, and wherever a line is not text at all |
| Journals.ReadLatest | frontend/src-tauri/src/deployment.rs:505-535 | The line loop reads what the file means, with all of its errors: no record, a first line that does not parse, a line that is not UTF-8 |
| Journals.AppendIsRead | frontend/src-tauri/src/deployment.rs:453-481 | On a clean journal an appended record is the one read back |
| Journals.AppendReadsIff | frontend/src-tauri/src/deployment.rs:469-475 | When an appended record is the one read back: exactly on a clean journal, or where the lines the append keeps read so already |
| Journals.AppendVisibleIffClean | frontend/src-tauri/src/deployment.rs:469-475 | Appends are visible exactly on clean journals: onto a torn line a record is glued and lost |
| Journals.AppendReadings | frontend/src-tauri/src/deployment.rs:453-481 | At no point of an append, wherever it is torn, does the file read as anything but before, the new record, or, torn inside a character, as unreadable |
| Journals.AppendReadOrBad | frontend/src-tauri/src/deployment.rs:453-481 | A finished append is read back unless a bad line stands before it |
| DeploymentTheorems.RecoveryIsAtomic | frontend/src-tauri/src/deployment.rs:250-447 | Over every life of a target (install, recoveries and damage, each cut anywhere): RolledBack only with everything as before, Committed only with exactly the snapshot, and giving up changes nothing |
| DeploymentTheorems.RecoveryIsSafeAnywhere | frontend/src-tauri/src/deployment.rs:250-361 | Whatever a recovery finds, also outside those lives: it commits only over exactly the snapshot, rolls back only to the backup if there is one, and never loses both |
| DeploymentTheorems.OldTreeSurvives | frontend/src-tauri/src/deployment.rs:99-184 | The old tree is whole in destination or backup until the verified snapshot is in place and Activated can be read back, or was lost to a torn line |
| DeploymentTheorems.GivesUpIff | frontend/src-tauri/src/deployment.rs:259-360 | Where recovery gives up: exactly where the journal yields no record, or where nothing is staged, in backup, or to be finished. If a record was read nothing is left to undo |
| DeploymentTheorems.OldAsideRecovers | frontend/src-tauri/src/deployment.rs:259-360 | While the old tree is aside recovery succeeds exactly if the journal can be read |
| DeploymentTheorems.UnreadableForever | frontend/src-tauri/src/deployment.rs:517-518 | A journal that cannot be read stays so, and no start-up changes anything any more |
| DeploymentTheorems.StoppedDeployIff | frontend/src-tauri/src/deployment.rs:99-184 | Wherever a deployment stops, by a crash or an error it reports, destination and row are as before exactly if nothing had been moved yet or, after a failed verification, everything had been put back; otherwise its journal is open, in a state of some life |
| DeploymentTheorems.FailedDeployChangesNothing | frontend/src-tauri/src/deployment.rs:130-174 | A deployment in which only materialization, the Prepared record or a verification fails leaves the target as it was, but for a staging remnant |
| DeploymentTheorems.CatalogAgrees | frontend/src-tauri/src/lib.rs:578-611 | While no journal is open, destination and catalog row are both as before or both as deployed; a row is at odds with the disk only if it was before |
| DeploymentTheorems.CatalogNeedsTheTree | frontend/src-tauri/src/lib.rs:589-611 | The row is written only over the snapshot in place, and the journal goes after it exactly if Activated is read and nothing is staged or in backup |
| DeploymentTheorems.InstallCompletes | frontend/src-tauri/src/lib.rs:549-617 | A deployment that runs to its end is committed exactly if nothing goes wrong, and then snapshot and row are in place and nothing else is left; otherwise everything is as before but for a staging remnant |
| DeploymentTheorems.CleanStartUpCloses | frontend/src-tauri/src/lib.rs:1276-1316 | A completed start-up over a clean journal closes the transaction, except in the states it names |
| DeploymentTheorems.CommitClosesIff | frontend/src-tauri/src/lib.rs:1276-1316 | In every state of every life in which recovery commits, the start-up closes the journal exactly if it was clean or the lines the append keeps already read Activated |
| DeploymentTheorems.RecoveryIsRepeatable | frontend/src-tauri/src/deployment.rs:332-351 | Recovery after Committed commits again and touches no slot, exactly when Activated is read or nothing was replaced and the journal can be read |
| DeploymentTheorems.AcknowledgedIffActivatedIsRead | frontend/src-tauri/src/deployment.rs:188-212 | A committed deployment is acknowledged exactly when Activated is read back |
| DeploymentCrashes.CrashInOldMoved | frontend/src-tauri/src/deployment.rs:149-184 | Every state of the OldMoved append of a replacement is one in which a life can find the target |
| DeploymentCrashes.CrashInActivated | frontend/src-tauri/src/deployment.rs:149-184 | So is every state from the Activated append on |
| DeploymentCrashes.TornCharacterStrandsOldTree | frontend/src-tauri/src/deployment.rs:517-518 | A reachable state: OldMoved torn inside a character, destination absent, the old tree in backup, and every start-up fails |
| DeploymentCrashes.TornRecordStrandsJournal | frontend/src-tauri/src/deployment.rs:469-475 | A reachable state: one torn OldMoved record, from which recovery commits, and neither the acknowledgement nor a later recovery closes the journal |
| DeploymentCrashes.OpenActivatedIsLost | frontend/src-tauri/src/deployment.rs:469-475 | A reachable state: a whole Activated record without its newline is lost to the next append, and the commit is not closed |
| DeploymentLateDamage.LateLifeInv | frontend/src-tauri/src/deployment.rs:395-447 | The invariant of every life in which the candidate is damaged at any time while the journal is open, with a memory of whether the backup has begun to go |
| DeploymentLateDamage.LateRollBackIsFaithfulIff | frontend/src-tauri/src/deployment.rs:413-447 | Over those lives a start-up that rolls back leaves everything as before exactly if no run has begun to remove the backup and the row is as it was; only first installs get further |
| DeploymentLateDamage.RemnantIsRestored | frontend/src-tauri/src/deployment.rs:413-421 | A reachable life that ends rolled back with the remnant of the backup in the destination |
| DeploymentLateDamage.RecordedRecovery | frontend/src-tauri/src/deployment.rs:413-447 | With the row written and the candidate damaged recovery gives up, except where a first install lost its Activated record |
| DeploymentLateDamage.RowIsLeftWithoutTree | frontend/src-tauri/src/deployment.rs:435-446 | A reachable life of a first install that ends rolled back with its row and no tree |
| DeploymentRuns.LifeInv | frontend/src-tauri/src/deployment.rs:99-447 | The inductive invariant of every state of every life |
| DeploymentRuns.RecoverOneHonest | frontend/src-tauri/src/deployment.rs:250-361 | Recovery keeps the invariant at each of its steps and reports only what it achieved |
| DeploymentRuns.DeployInv | frontend/src-tauri/src/deployment.rs:99-184 | Every state of a deployment, cut anywhere, satisfies the invariant |
| DeploymentRuns.StartUpInv | frontend/src-tauri/src/lib.rs:1276-1316 | Every state of a start-up, recovery and catalog replay, satisfies the invariant |
| DeploymentRuns.DamageInv | frontend/src-tauri/src/deployment.rs:395-447 | Damage to the candidate while the old tree is intact, or before a row is written, keeps the invariant |
| DeploymentEngines.DeploymentEngine.PersistJournal | frontend/src-tauri/src/deployment.rs:453-481 | One record appended and synced, or cut within |
| DeploymentEngines.DeploymentEngine.RemoveBackupTree | frontend/src-tauri/src/deployment.rs:681-708 | A tree is seen half removed and then gone |
| DeploymentEngines.DeploymentEngine.Restore | frontend/src-tauri/src/deployment.rs:666-679 | The backup is renamed over an absent destination, and refused otherwise |
| DeploymentEngines.DeploymentEngine.RollBackActive | frontend/src-tauri/src/deployment.rs:659-664 | The candidate removed, the old tree put back, the journal closed |
| DeploymentEngines.DeploymentEngine.ActivateStaging | frontend/src-tauri/src/deployment.rs:363-393 | Reaches the end of the activation walk, or the state the walk is in when it is cut |
| DeploymentEngines.DeploymentEngine.VerifyActive | frontend/src-tauri/src/deployment.rs:395-421 | The same for checking an activated candidate over a backup |
| DeploymentEngines.DeploymentEngine.VerifyFresh | frontend/src-tauri/src/deployment.rs:423-447 | The same for a first install |
| DeploymentEngines.DeploymentEngine.Recover | frontend/src-tauri/src/deployment.rs:250-361 | The same for recovery of one journal |
| DeploymentEngines.DeploymentEngine.PrepareStaging | frontend/src-tauri/src/deployment.rs:99-148 | The same for the half of a deployment before Prepared is durable |
| DeploymentEngines.DeploymentEngine.ActivateCandidate | frontend/src-tauri/src/deployment.rs:149-184 | The same for swapping the candidate in |
| DeploymentEngines.DeploymentEngine.DeploySnapshot | frontend/src-tauri/src/deployment.rs:99-184 | The same for a whole deployment |
| DeploymentEngines.DeploymentEngine.AcknowledgeCatalogCommit | frontend/src-tauri/src/deployment.rs:188-212 | The journal is dropped exactly when Activated is read over settled slots |
| DeploymentEngines.DeploymentEngine.RecordAndAcknowledge | frontend/src-tauri/src/lib.rs:578-611 | Verified once more, the row written, the journal acknowledged, in that order |
| DeploymentEngines.DeploymentEngine.DeploySingle | frontend/src-tauri/src/lib.rs:549-617 | From rest and with power enough the command commits exactly if the snapshot is staged, recorded and found in place; then destination and row hold it and no journal is left. Cut anywhere, it is where its walk is |
| DeploymentEngines.DeploymentEngine.StartUpOnce | frontend/src-tauri/src/lib.rs:1276-1316 | One start-up takes its walk, cut anywhere |
| DeploymentBatch.EachRecoversAlone | frontend/src-tauri/src/deployment.rs:218-248 | After any part of a batch each journal is where its own recovery leads, and no other path has changed |
| DeploymentBatch.OrderIsIrrelevant | frontend/src-tauri/src/deployment.rs:218-248 | Journals on disjoint paths recover to the same disk in any order |
| DeploymentBatch.CutPassLeavesOthers | frontend/src-tauri/src/deployment.rs:218-248 | A pass cut within one journal leaves that one within its own recovery, earlier ones where theirs leads, and later ones to be found as before |
| DeploymentBatch.JournalRoot.RecoverIncomplete | frontend/src-tauri/src/deployment.rs:218-248 | The loop leaves every journal where it would have been alone and reports its own outcome |
| Uninstall.ReconcileIsAtomicIff | frontend/src-tauri/src/lib.rs:1193-1231 | After any interruption a completed pass leaves the row present exactly when the target is, with its original content, exactly unless the target is away and the journal cannot be read |
| Uninstall.StrandedIffCutInCharacter | frontend/src-tauri/src/uninstall.rs:335-358 | An uninstall is stranded, for good, exactly if the command was cut inside a character of the Moved record |
| Uninstall.TornCharacterStrandsUninstall | frontend/src-tauri/src/uninstall.rs:335-358 | That state is reached wherever a path holds such a character; every pass fails in it |
| Uninstall.JournalIsNotRewritten | frontend/src-tauri/src/uninstall.rs:177-224 | No pass ever writes to the journal, and none gets past one that cannot be read |
| Uninstall.NothingIsDestroyedUnderARow | frontend/src-tauri/src/uninstall.rs:120-147 | While the row exists the original tree exists whole, in place or in quarantine |
| Uninstall.ReconcileFailsIff | frontend/src-tauri/src/uninstall.rs:177-224 | Where a pass leaves a journal unresolved: exactly without a record to be read, or where row and target agree already |
| Uninstall.CommandCompletes | frontend/src-tauri/src/lib.rs:766-833 | At rest, whether or not the directory is still there, the command removes directory and row; if the catalog refuses or knows of nothing, everything is as before |
| Uninstall.ReconcileMeans | frontend/src-tauri/src/lib.rs:1193-1231 | What a pass does with an open journal, by its record, the two places and the row |
| Uninstall.FinalizeMeans | frontend/src-tauri/src/uninstall.rs:120-147 | Finalizing is refused unless the journal reads and the target is away; then quarantine and journal go, in this order |
| Uninstall.RollBackMeans | frontend/src-tauri/src/uninstall.rs:149-175 | Rolling back is refused unless the journal reads and exactly one place holds a tree; then the target does |
| Uninstall.PassesAreSafe | frontend/src-tauri/src/uninstall.rs:149-224 | Whatever a pass finds, also outside those lives: it changes no row and no target that is there, and takes a tree out of quarantine only to move it back or when no row is left |
| Uninstall.LifeInv | frontend/src-tauri/src/uninstall.rs:80-224 | The inductive invariant of every state of every interrupted uninstall |
| UninstallEngines.UninstallEngine.BeginUninstall | frontend/src-tauri/src/uninstall.rs:80-118 | Journal the intent, move to quarantine, journal the move, cut anywhere |
| UninstallEngines.UninstallEngine.FinalizeUninstall | frontend/src-tauri/src/uninstall.rs:120-147 | Destroy the quarantine and close the journal, cut anywhere |
| UninstallEngines.UninstallEngine.RollBackUninstall | frontend/src-tauri/src/uninstall.rs:149-175 | Move the tree back and close the journal, cut anywhere |
| UninstallEngines.UninstallEngine.ReconcileRecovery | frontend/src-tauri/src/lib.rs:1193-1231 | One reconciliation takes its walk, decided by the catalog row |
| UninstallEngines.UninstallEngine.UninstallSkill | frontend/src-tauri/src/lib.rs:766-833 | At rest and with power enough both resources go, also where the directory is gone already, or everything is as before; cut anywhere, it is where its walk is |
| PortablePaths.JoinSplit | frontend/src-tauri/src/skill_snapshot.rs:372-409 | Joining what a path splits into gives the path back |
| PortablePaths.SplitJoin | frontend/src-tauri/src/skill_snapshot.rs:372-409 | Splitting a joined path gives its segments back |
| PortablePaths.AboveIsPrefix | frontend/src-tauri/src/skill_snapshot.rs:454-478 | One portable path is a directory above another exactly when its segments are a proper prefix |
| PortablePaths.SegmentRule | frontend/src-tauri/src/skill_snapshot.rs:411-442 | The rule for a segment spelled out: no trailing dot or space, 255 bytes, no control or forbidden character, no device name with or without an extension; and where the two sides differ |
| PortablePaths.ReservedIff | frontend/src-tauri/src/skill_snapshot.rs:425-440 | Reserved is a device name in any mix of cases, bare or with any extension |
| PortablePaths.ByteLengthIs | frontend/src-tauri/src/skill_snapshot.rs:411-415 | The length that is limited is that in UTF-8 |
| PortablePaths.OrdinaryNamesAreAccepted | frontend/src-tauri/src/skill_snapshot.rs:411-442 | Names of letters, digits, dashes, inner dots and spaces and text beyond ASCII are accepted by both sides |
| PortablePaths.PathsStayBelow | frontend/src-tauri/src/skill_snapshot.rs:395-409 | From any root a path either side accepts leads to its own segments below that root |
| PortablePaths.DesktopPathsAreServerPaths | frontend/src-tauri/src/skill_snapshot.rs:411-442 | The server takes the desktop's paths and exactly those more that hold DEL or a C1 control |
| Ordering.StrictlySortedIsUnique | frontend/src-tauri/src/skill_snapshot.rs:308-342 | A strictly sorted listing is determined by its elements |
| Ordering.SortKeepsBoth | frontend/src-tauri/src/cache_manager.rs:108-114 | A stable sort by one key of what is in order by another is in order by both |
| Snapshots.ManifestIsDetermined | frontend/src-tauri/src/skill_snapshot.rs:57-105 | Equal trees have equal manifests, hence equal hashes |
| Snapshots.ManifestDetermines | frontend/src-tauri/src/skill_snapshot.rs:107-126 | A manifest represents only one tree |
| Snapshots.ValidateManifest | frontend/src-tauri/src/skill_snapshot.rs:308-342 | One pass accepts exactly the valid manifests, and no entry of one leads out of the directory it is materialized in |
| SnapshotRules.ManifestRule | frontend/src-tauri/src/skill_snapshot.rs:308-342 | What makes a manifest valid, spelled out: numbers, sizes, paths, order, the entry point |
| SnapshotRules.ItemsAre | frontend/src-tauri/src/skill_snapshot.rs:193-229 | The walk finds every regular file below the directory, with its path and content, and nothing else |
| SnapshotRules.PlainIff | frontend/src-tauri/src/skill_snapshot.rs:193-229 | A directory is plain if no link and no special file is in it, however deep |
| SnapshotRules.CapturableIff | frontend/src-tauri/src/skill_snapshot.rs:57-105 | Which directories can be captured, limit by limit and name by name |
| Snapshots.CollectFiles | frontend/src-tauri/src/skill_snapshot.rs:193-229 | The capturing walk collects every regular file or stops at a link, a limit or an unportable name |
| Snapshots.SortedEntriesRepresent | frontend/src-tauri/src/skill_snapshot.rs:57-105 | The sorted listing of a walk represents the directory's file map |
| Snapshots.CapturedIsValid | frontend/src-tauri/src/skill_snapshot.rs:57-105 | What was collected within limits with an entry point is a valid manifest |
| Snapshots.CaptureWorkspace | frontend/src-tauri/src/skill_snapshot.rs:57-105 | Succeeds exactly within the limits and with portable names only, and then stores a valid manifest of exactly the workspace |
| Snapshots.ReadManifest | frontend/src-tauri/src/skill_snapshot.rs:107-126 | A manifest reads exactly when it is stored and valid |
| Snapshots.WriteFiles | frontend/src-tauri/src/skill_snapshot.rs:136-191 | Writes every entry, or fails on a missing blob, a wrong length or a file in a directory's place |
| Snapshots.MaterializeSnapshot | frontend/src-tauri/src/skill_snapshot.rs:136-191 | Into a new directory all or nothing, and then exactly the represented tree |
| Snapshots.CapturedIsMaterializable | frontend/src-tauri/src/skill_snapshot.rs:136-191 | The entries of a captured manifest never get in each other's way |
| Snapshots.RoundTrip | frontend/src-tauri/src/skill_snapshot.rs:57-191 | Capture, then materialize, gives the workspace's file map back, and verification accepts exactly the plain directories with that file map |
| Snapshots.CollectDeployed | frontend/src-tauri/src/snapshot_verifier.rs:79-108 | The independent walker collects every regular file, or stops at anything else |
| Snapshots.CompareFiles | frontend/src-tauri/src/snapshot_verifier.rs:14-77 | Accepts exactly a listing equal to the manifest's |
| Snapshots.VerifyMaterializedSnapshot | frontend/src-tauri/src/snapshot_verifier.rs:14-77 | Accepts a directory exactly when its file map is the manifest's |
| Snapshots.VerificationIsEquality | frontend/src-tauri/src/snapshot_verifier.rs:14-77 | Verifying against a tree's manifest is equality with the tree |
| PackageManifests.ValidateSnapshotManifestBytes | backend/app/services/package_manifest.py:45-79 | Accepts exactly the documents of bounded length, the right shape and version whose listing obeys the rules, none of whose entries leads out of the directory it is unpacked in; another version is rejected as such |
| PackageManifests.ValidateListing | backend/app/services/package_manifest.py:81-129 | The loop over the entries, shape and content in one pass, accepts exactly the listings the rules admit |
| PackageManifests.ListingRule | backend/app/services/package_manifest.py:81-129 | What the server asks of a listing, spelled out: numbers, sizes, order, hashes, the entry point |
| PackageManifests.ListingIs | backend/app/services/package_manifest.py:60-111 | Which listing a document stands for: under which keys and with which values its version, paths, hashes and sizes are read |
| PackageManifests.DesktopManifestsAreServerManifests | backend/app/services/package_manifest.py:81-129 | The server's rules for listings admit what the desktop's admit; the converse fails exactly on the named hashes and paths |
| ManifestAgreement.ValidIsDesktopAccepted | frontend/src-tauri/src/skill_snapshot.rs:308-342 | The desktop's validator accepts a manifest exactly if its rendered listing obeys the desktop's rules as the server would see it |
| ManifestAgreement.DesktopAndServerAgree | backend/app/services/package_manifest.py:81-129 | A manifest is valid on the desktop exactly if the server's rules accept its rendered listing and no path holds DEL or a C1 control |
| ManifestAgreement.CapturedListingIsAccepted | backend/app/services/package_manifest.py:81-129 | The listing of every workspace the desktop captures is one the server's rules accept |
| ManifestAgreement.WrittenIsAcceptedIff | backend/app/services/package_manifest.py:65-71 | The server accepts a document exactly if its version is under the key it looks up and the rules accept its listing |
| ManifestAgreement.VersionKeyDecides | frontend/src-tauri/src/skill_snapshot.rs:32-38 | The server rejects every manifest as the desktop writes it, and would accept all of them with the version under the other key |
| ManifestAgreement.CapturedIsRejected | frontend/src-tauri/src/skill_snapshot.rs:92-98 | In particular every captured manifest |
| ManifestAgreement.ServerTakesMore | backend/app/services/package_manifest.py:33-33 | Two listings the server's rules accept and the desktop's reject: a hash with a newline, a path with DEL |
| PackageManifests.EntryRulesCompared | backend/app/services/package_manifest.py:33-33 | Entry by entry: where the two rule sets differ |
| PackageManifests.ValidatePackageClosure | backend/app/services/package_manifest.py:132-153 | The totals exactly when every blob is held with its size, else the first that is not |
| CacheTasks.NeedsIffReferenced | frontend/src-tauri/src/cache_manager.rs:65-106 | A blob is needed exactly when a live reference's readable closure contains it |
| CacheTasks.RefsAre | frontend/src-tauri/src/cache_manager.rs:65-84 | The live references are the snapshots of skills not remote-only, of deployments and of pending mutations |
| CacheTasks.YieldsIff | frontend/src-tauri/src/cache_manager.rs:120-150 | A skill yields exactly if it is synced, on the server and unpinned in the list as in its row, holds the listed snapshot, which resolves, and has neither deployment nor workspace |
| CacheTasks.ChangesAreFair | frontend/src-tauri/src/cache_manager.rs:120-174 | Of the first skills in order exactly the yielding ones become remote-only, and nothing else changes |
| CacheTasks.EvictionDropsOneRef | frontend/src-tauri/src/cache_manager.rs:120-174 | Evicting a skill takes away exactly its own reference |
| CacheTasks.EvictionNeeds | frontend/src-tauri/src/cache_manager.rs:120-174 | After a skill's turn the needs are those before less the closure it held |
| CacheTasks.HeldStep | frontend/src-tauri/src/cache_manager.rs:150-174 | An eviction takes from disk exactly the deletable blobs of the closure that no live reference needs any more |
| CacheTasks.DeletionFreesItsBytes | frontend/src-tauri/src/cache_manager.rs:41-58 | Deleting a blob takes its size off the bytes on disk |
| CacheManager.LocalCache.CountLive | frontend/src-tauri/src/cache_manager.rs:65-106 | The counts are exactly the numbers of live references that keep each blob |
| CacheManager.LocalCache.ReleaseOne | frontend/src-tauri/src/cache_manager.rs:150-170 | One decrement never saturates, and deletes exactly at the last reference |
| CacheManager.LocalCache.EvictOne | frontend/src-tauri/src/cache_manager.rs:120-174 | Claim, then release: counts and bytes stay exact and needed blobs in place |
| CacheManager.LocalCache.TakeTurn | frontend/src-tauri/src/cache_manager.rs:120-174 | One skill's turn of the loop: evicted exactly if it yields, skipped otherwise, with exactly the blobs gone that become needless |
| CacheTasks.LruIsOrdered | frontend/src-tauri/src/cache_manager.rs:108-114 | The task's skills are tried in the order of last access, and of their ids where that is the same |
| CacheTasks.EvictionIsOldestFirst | frontend/src-tauri/src/cache_manager.rs:108-174 | Every skill older in that order than an evicted one was evicted too, or was protected by one of the reasons named |
| CacheManager.LocalCache.EvictSkills | frontend/src-tauri/src/cache_manager.rs:120-174 | Exactly the yielding skills of a prefix of the sorted list are evicted, while and only while the blobs left are above budget |
| CacheManager.LocalCache.SweepOrphans | frontend/src-tauri/src/cache_manager.rs:176-200 | Only blobs no live reference needs are swept, until within budget and no further |
| CacheManager.LocalCache.ClaimSkillForEviction | frontend/src-tauri/src/local_store/cache.rs:113-145 | The compare-and-swap that precedes any deletion: claimed exactly if its guard holds of the row, and a lost claim changes nothing |
| CacheManager.LocalCache.EnforceCacheBudget | frontend/src-tauri/src/cache_manager.rs:33-210 | No blob a remaining skill, deployment or pending mutation needs goes; only synced, unpinned, undeployed skills on the server without a workspace are evicted, oldest first, none too many, and of those that had their turn all; byte count and report are exact |
| BlobGc.Mark | backend/app/services/blob_gc.py:82-92 | The worklist loop ends and marks the least set around the roots closed under manifest expansion |
| BlobGc.ClosedAndReachableIsLeast | backend/app/services/blob_gc.py:82-92 | Closed and reachable is least |
| BlobGc.MarkingAdvances | backend/app/services/blob_gc.py:82-92 | One turn of the loop forgets nothing and adds nothing unreachable |
| BlobGc.SweepMeaning | backend/app/services/blob_gc.py:94-118 | A pass deletes exactly the unmarked rows of its batch, none inside the grace window |
| BlobGc.SweepIsDeletion | backend/app/services/blob_gc.py:107-118 | Deleting row by row amounts to the sweep |
| BlobGc.BatchIs | backend/app/services/blob_gc.py:98-105 | The batch: the old rows that fewer than so many old rows precede in hash order |
| BlobGc.BlobRegistry.SweepBatch | backend/app/services/blob_gc.py:107-118 | The deletion loop, bytes with their rows |
| BlobGc.GatherRoots | backend/app/services/blob_gc.py:66-77 | The roots: legal pins, all versions, current packages, and what the retained change rows and receipts name |
| BlobGc.RootsAre | backend/app/services/blob_gc.py:66-77 | What is a root, in terms of the tables: any version, any skill, a change row or receipt within its retention, a legal hold |
| BlobGc.BlobRegistry.RunBlobGc | backend/app/services/blob_gc.py:46-120 | One pass, in terms of the tables: what a version, skill, retained change row or receipt or a legal hold names stays with the blobs of its manifest, and so does what is young or behind the batch; of the batch all that is reached from none of these goes, bytes and rows |
| BlobGc.RetainedPackagesSurvive | backend/app/services/blob_gc.py:66-92 | A rooted manifest and every blob it names are held after a pass as before |
| BlobGc.ClosureStillValid | backend/app/services/package_manifest.py:132-153 | A retained package that passed the closure check passes it after a pass |
| BlobGc.MarksAreStable | backend/app/services/blob_gc.py:172-186 | Deleting what no root reaches does not change what is reached |
| BlobGc.RunsArePasses | backend/app/services/blob_gc.py:46-120 | Repeated runs, each with its own mark, are passes with the first mark |
| BlobGc.RunsConvergeIffNotStarved | backend/app/services/blob_gc.py:98-110 | Repeated runs collect an old row exactly when no root reaches it and fewer marked old rows than a batch precede it |
| BlobGc.FullBatchOfMarkedRowsStarves | backend/app/services/blob_gc.py:94-118 | A full batch of marked rows in front: no number of runs collects the row behind it |
| SkillHistory.RevisionHistoryIsFaithful | backend/app/services/skill_mutations.py:68-99 | Over every run a skill's change rows carry 1, 2, 3, ... to its revision, the last one shows it as it is, and only a purge tombstone repeats one; versions, head package and slugs stay consistent |
| SkillHistory.EditIsOneRevision | backend/app/services/skill_mutations.py:186-589 | Every edit changes nothing or bumps the revision once, rewrites no version, and keeps versions and head sound |
| SkillHistory.UpdateMeans | backend/app/services/skill_mutations.py:186-266 | An update sets what it is given and leaves the rest; content makes a version, demotes where asked, and fails exactly on a taken name |
| SkillHistory.CreateVersionMeans | backend/app/services/skill_mutations.py:268-327 | A version by hand becomes current, and publishes or demotes where asked |
| SkillHistory.PublishMeans | backend/app/services/skill_mutations.py:329-361 | Publishing makes the version and the skill published and that version current, and changes nothing else |
| SkillHistory.RollbackMeans | backend/app/services/skill_mutations.py:537-589 | A rollback fails exactly for a version of another skill or where the next name is taken, and else adds the old content as a draft, under that name |
| SkillHistory.NoChangeNoRevision | backend/app/services/skill_mutations.py:186-589 | An edit that would change nothing but the revision changes nothing |
| SkillHistory.StatusMeans | backend/app/services/skill_mutations.py:363-431 | A status, the trash and the way back change status and trash flag only |
| SkillHistory.TagsMean | backend/app/services/skill_mutations.py:472-535 | Labelling replaces one version's labels, and fails exactly where another version has one of them |
| SkillHistory.CleanedAre | backend/app/services/skill_mutations.py:514-514 | Labels are kept once each, without the empty one, in order of first appearance |
| SkillHistory.CreateMeans | backend/app/services/skill_mutations.py:101-184 | A creation fails exactly on scope or slug, and else adds one skill at revision 1 |
| SkillHistory.PurgeMeans | backend/app/services/skill_mutations.py:433-460 | A purge takes away exactly a skill in the trash |
| SkillHistory.EditMeans | backend/app/services/skill_mutations.py:68-99 | A transaction touches its own skill, and logs it as it is after it, exactly if it changed |
| SkillHistory.ApplyIsFaithful | backend/app/services/skill_mutations.py:101-460 | One transaction keeps every skill's history faithful |
| SkillHistory.ApplyGrows | backend/app/services/skill_mutations.py:101-589 | Ids are not reused, no revision goes back, and an unchanged revision means an unchanged skill |
| SkillHistory.RollbackIsForward | backend/app/services/skill_mutations.py:537-589 | A rollback is a new version with the source's content and package |
| SkillHistory.TrashAndBack | backend/app/services/skill_mutations.py:380-431 | Trash and restore give a draft, two revisions on, with the same versions |
| SkillHistory.TagsAreSound | backend/app/services/skill_mutations.py:472-535 | Labels of different versions stay apart |
| SkillHistory.PublishIsSound | backend/app/services/skill_mutations.py:329-361 | Publishing sets head and package to the version's |
| VersionNames.NextPatchOfName | backend/app/services/skill_mutations.py:591-602 | The name after a semantic version, with or without a suffix, has the next patch number |
| VersionNames.NumbersOfName | backend/app/services/skill_mutations.py:597-599 | A semantic name has its numbers, with or without a suffix |
| VersionNames.NamesAreDistinct | backend/app/services/skill_mutations.py:591-602 | Different patch numbers make different names |
| SkillHistory.NextNameTakenIff | backend/app/services/skill_mutations.py:591-602 | In a series of patch versions, from any semantic version on, the next name is taken exactly when the current version is not the latest |
| SkillHistory.SeriesGoesOn | backend/app/services/skill_mutations.py:186-589 | Edits that name no version and publish none but the latest continue a series, with the latest version current |
| SkillHistory.PublishBlocksIff | backend/app/services/global_skills.py:95-145 | After publishing a version of a global skill an update that brings content without a name fails exactly if that version is not the latest |
| SkillHistory.OnlyNamesBreakSeries | backend/app/services/skills.py:97-201 | Of the edits the web offers of a private skill only a version named by hand breaks a series |
| SkillMutations.SkillMutationService.CreateSkill | backend/app/services/skill_mutations.py:101-184 | Creates skill, first version and change row, or fails on scope or slug |
| SkillMutations.SkillMutationService.UpdateSkill | backend/app/services/skill_mutations.py:186-266 | Attribute by attribute, with at most one new version and one revision |
| SkillMutations.SkillMutationService.CreateVersion | backend/app/services/skill_mutations.py:268-327 | A further version becomes current |
| SkillMutations.SkillMutationService.PublishVersion | backend/app/services/skill_mutations.py:329-361 | Bumps only if something changes |
| SkillMutations.SkillMutationService.SetStatus | backend/app/services/skill_mutations.py:363-378 | Bumps only if the status changes |
| SkillMutations.SkillMutationService.SoftDelete | backend/app/services/skill_mutations.py:380-407 | Into the trash, once |
| SkillMutations.SkillMutationService.RestoreSkill | backend/app/services/skill_mutations.py:409-431 | Out of the trash, as a draft |
| SkillMutations.SkillMutationService.PurgeSkill | backend/app/services/skill_mutations.py:433-460 | Only from the trash: a tombstone, then the row goes |
| SkillMutations.SkillMutationService.SetVersionTags | backend/app/services/skill_mutations.py:497-535 | Replaces a version's labels if no other version has them |
| SkillMutations.SkillMutationService.RollbackVersion | backend/app/services/skill_mutations.py:537-589 | Adds the source's content as a new current version, under the next patch name |
| SkillMutations.SkillMutationService.VersionTagsFree | backend/app/services/skill_mutations.py:472-495 | True exactly when no other version has one of the labels |
| SyncMutations.RepeatsChangeNothing | backend/app/services/sync_mutations.py:494-527 | Repeating receipted requests at any later positions leaves skills, versions, log and receipts the same |
| SyncMutations.RepeatsGetTheFirstResponse | backend/app/services/sync_mutations.py:508-518 | Every repeat is answered with the response of the one push that was served |
| SyncMutations.UpdatePushMeans | backend/app/services/sync_mutations.py:308-421 | A push of an update: refused exactly for who does not own the skill or in the trash, a conflict exactly off its base, and else the row has what was pushed, one revision on, as the answer says |
| SyncMutations.DeletePushMeans | backend/app/services/sync_mutations.py:424-485 | A push of a deletion: refused exactly for who does not own the skill, a conflict exactly off its base, and else the skill is in the trash at the revision answered |
| SyncMutations.CreatePushMeans | backend/app/services/sync_mutations.py:229-305 | A push of a creation: refused exactly under a live slug of the caller, and else a new private skill with what was pushed |
| SyncMutations.EffectsHappenOnce | backend/app/services/sync_mutations.py:494-527 | A mutation takes effect at most once, whatever body a repeat has |
| SyncMutations.NoLostUpdate | backend/app/services/sync_mutations.py:340-421 | An acknowledged update replaced exactly the row that had its base revision |
| SyncMutations.BasesAreDistinct | backend/app/services/sync_mutations.py:358-376 | Two acknowledged updates of a skill never share a base |
| SyncMutations.EveryHeadIsSeen | backend/app/services/sync_mutations.py:340-421 | Every earlier head is at most the next acknowledged base, and no earlier version is lost |
| SyncMutations.RunIsFaithful | backend/app/services/sync_mutations.py:229-485 | Histories stay faithful between pushes and web edits |
| SyncMutations.RunGrows | backend/app/services/sync_mutations.py:229-485 | Nothing goes back between pushes and web edits |
| SyncMutations.StepIsOneTransaction | backend/app/services/sync_mutations.py:229-485 | A push is at most one transaction of the mutation service |
| SyncMutations.CreateFailsIff | backend/app/services/sync_mutations.py:218-226 | When a create fails without a receipt: an incomplete package, or a slug held by a row the look-up does not count |
| SyncMutations.SlugOfADeletedSkill | backend/app/services/sync_mutations.py:218-226 | A run from nothing: create, delete, create under the same slug, which fails, and fails on every retry |
| SyncMutations.UpdateFailsIff | backend/app/services/sync_mutations.py:340-421 | When an update fails without a receipt: at its base, with an incomplete package or the name of its version taken |
| SyncMutations.UpdatesAreAnswered | backend/app/services/sync_mutations.py:378-421 | Over every run in which nobody names a later version of the skill or publishes an older one, an update of it with a complete package is always answered |
| SyncMutations.NamesByHandBlockUpdates | backend/app/services/sync_mutations.py:378-421 | A run from nothing of what the web offers: a push creates a skill, 0.1.2 and then 0.1.1 are added by hand; then updates at the head fail on every retry, and roll-backs fail |
| SyncServers.SyncServer.HandleCreate | backend/app/services/sync_mutations.py:229-305 | Answers and changes what the specification says |
| SyncServers.SyncServer.HandleUpdate | backend/app/services/sync_mutations.py:308-421 | The same for an update |
| SyncServers.SyncServer.HandleDelete | backend/app/services/sync_mutations.py:424-485 | The same for a delete |
| SyncServers.SyncServer.ApplySyncMutation | backend/app/services/sync_mutations.py:494-527 | Replays a receipt first, and takes one step of the run otherwise |
| SyncCursors.CursorRoundTrip | backend/app/services/sync_cursor.py:13-41 | Exactly the numbers below 2^64 encode, and each decodes to itself |
| SyncCursors.LettersRead | backend/app/services/sync_cursor.py:29-37 | The decoder reads each letter as its place in the URL-safe alphabet, and plus and slash as well |
| SyncCursors.CursorIsNumeral | backend/app/services/sync_cursor.py:13-18 | A cursor is v1. and the number as eleven digits to the base of 64 in the URL-safe alphabet, two zero bits at the end |
| SyncCursors.DecoderAccepts | backend/app/services/sync_cursor.py:21-41 | The decoder accepts no cursor, the empty one, and exactly eleven digits behind the prefix |
| SyncCursors.CanonicalIff | backend/app/services/sync_cursor.py:29-41 | Of the accepted spellings exactly the canonical one is the encoder's |
| SyncCursors.Base64RoundTrip | backend/app/services/sync_cursor.py:17-36 | Decoding undoes encoding, for all bytes |
| SyncCursors.BytesRoundTrip | backend/app/services/sync_cursor.py:16-16 | Big-endian bytes give the number back |
| SyncFeed.PageIsNext | backend/app/services/sync_changes.py:72-97 | A page ships the next rows of the whole history and says exactly whether there are more |
| SyncFeed.PageSize | backend/app/services/sync_changes.py:56-79 | A page ships between one row and 200, never more than asked for, and is full if more is to come |
| SyncFeed.NoSilentGap | backend/app/services/sync_changes.py:62-75 | A non-zero position that missed a row is rejected while the log is not empty |
| SyncFeed.SilentGapIff | backend/app/services/sync_changes.py:59-70 | When a gap stays silent: position 0, or an empty log |
| SyncFeed.RejectedForNothingIff | backend/app/services/sync_changes.py:64-70 | When a position that missed nothing is rejected |
| SyncFeed.HiddenGapIsReported | backend/app/services/sync_changes.py:100-108 | A gap hidden by an empty log is reported with the next row |
| SyncFeed.DrainsFurther | frontend/src-tauri/src/sync_pull.rs:120-135 | The next page continues what was drained, however the log changed in between |
| SyncFeed.DesktopStore.FetchChangesPage | frontend/src-tauri/src/sync_pull.rs:46-53 | One page request, and exactly when it is refused |
| SyncFeed.DesktopStore.PullChanges | frontend/src-tauri/src/sync_pull.rs:100-136 | The rows applied are exactly the history between the old and the new cursor, each once and in order |
| SyncTrim.TrimRemovesAPrefix | backend/app/services/sync_trim.py:69-82 | With chronological rows a pass removes a prefix, as long as batch and age allow |
| SyncTrim.PassTakes | backend/app/services/sync_trim.py:69-82 | Row by row, a pass takes what is older than the cutoff and has fewer such rows before it than the batch |
| SyncTrim.NoSilentGapEver | backend/app/services/sync_trim.py:69-82 | After any writes and trims that leave the log non-empty, an accepted non-zero position missed nothing |
| SyncTrim.GapsAreReached | backend/app/services/sync_changes.py:59-70 | Feeds reached from nothing on which a gap stays silent, twice, and on which a position is rejected for nothing |
| SyncTrim.TrimsTailsIff | backend/app/services/sync_trim.py:69-82 | Every pass leaves a tail of the log, and none makes a hole no cursor check sees, exactly if creation times do not go back |
| SyncTrim.ClockStepsBack | backend/app/services/sync_trim.py:69-82 | For instance three rows of which the middle one is stamped too early |
| SyncTrim.TrimConverges | backend/app/services/sync_trim.py:20-22 | Each pass removes a full batch of old rows or all that are left |
| SyncTrim.SyncTables.TrimExpiredRows | backend/app/services/sync_trim.py:53-103 | One pass over both tables: exactly the expired rows of the batch go, none inside its retention, and the report counts them |
| SyncMirror.CaughtUpMirrorIsTheServer | frontend/src-tauri/src/local_store/pull_apply.rs:62-272 | A caught-up device mirrors every private skill outside the trash at its head, whatever changed between pages |
| SyncMirror.RunMirrors | backend/app/services/sync_changes.py:111-148 | Between any mutations and pulls the mirror agrees with the rows pulled so far |
| SyncMirror.MirrorHoldsNoForeignSkill | backend/app/services/sync_changes.py:239-242 | In no run does a device mirror a private skill of another user |
| SyncMirror.AppliedMeans | frontend/src-tauri/src/local_store/pull_apply.rs:62-272 | What a row does to the mirror: nothing if it is not newer, else in or out with what it shows |
| SyncMirror.StepMeans | frontend/src-tauri/src/sync_pull.rs:100-136 | A pull takes the next rows in order, as many as it may; mutations leave the device alone |
| SyncMirror.HiddenRowsDoNothing | backend/app/services/sync_changes.py:223-252 | Which rows the feed keeps to itself, and that these change nothing on the device |
| SyncMirror.PurgeFreezesTheMirror | backend/app/services/sync_changes.py:223-235 | Once a skill is purged no pull changes what a device has of it |
| SyncMirror.PurgedSkillStaysIff | backend/app/services/skill_mutations.py:433-460 | After any run, a device keeps a purged skill for good exactly if the last of its rows it had pulled by the purge was an upsert |
| SyncMirror.PurgeMissesAMirror | backend/app/services/skill_mutations.py:433-460 | Both tombstones pulled, and the purged skill is still mirrored |
| GroupDirectories.AlwaysAForest | backend/app/services/groups.py:72-102 | Under any sequence of creations, moves and dissolutions the groups stay a forest of depth at most 16, with no active group under an inactive one |
| GroupDirectories.NextIsHealthy | backend/app/services/groups.py:471-502 | One request, served or refused, keeps such a forest |
| GroupDirectories.CreateIsRefusedIff | backend/app/services/groups.py:72-102 | When a creation is refused, reason by reason: the parent, the permission, the depth |
| GroupDirectories.MoveIsRefusedIff | backend/app/services/groups.py:471-502 | When a move is refused, reason by reason: the parent, the subtree, the permission, the depth of the deepest group moved |
| GroupTrees.MoveIsForestIff | backend/app/services/groups.py:471-502 | The cycle check and the depth check together are exact |
| GroupTrees.MoveKeepsLevels | backend/app/services/groups.py:471-502 | Moving a subtree below a group outside it keeps a forest |
| GroupTrees.CreateKeepsForest | backend/app/services/groups.py:72-102 | A new group is a leaf one level below its parent |
| GroupTrees.ClosedContainsSubtree | backend/app/repositories/groups.py:166-177 | Going down from a group reaches every group whose way up passes it |
| GroupTrees.BelowIsTransitive | backend/app/repositories/groups.py:153-177 | Subtrees nest |
| GroupRoles.VisibleGroupIds | backend/app/repositories/groups.py:204-236 | The walk down finds exactly the groups in which the walk up gives a role |
| GroupRoles.EffectiveRoles | backend/app/repositories/groups.py:98-151 | The walk up computes the effective role of each group asked for |
| GroupRoles.InheritsManager | backend/app/repositories/groups.py:116-143 | Whether a manager stands above, with only active groups in between |
| GroupRoles.ManagersReachChildren | backend/app/repositories/groups.py:98-105 | An effective manager of an active parent is one of each active child |
| GroupRoles.OwnersOwn | backend/app/repositories/groups.py:98-105 | Inheritance never yields owner |
| GroupRoles.RolesAre | backend/app/repositories/groups.py:98-151 | The role in a group from the rows: owner and member by one's own row, admin by it or by an owner or admin above |
| GroupRoles.MembersManageNothing | backend/app/services/groups.py:25-25 | Who is a plain member everywhere manages nothing |
| GroupRoles.InactiveAncestorsCut | backend/app/repositories/groups.py:98-105 | An inactive ancestor breaks the chain |
| GroupRoles.ChainIsAncestry | backend/app/services/groups.py:427-435 | In reachable states no chain is broken: roles come from all ancestors |
| GroupDirectories.GroupDirectory.AncestorIds | backend/app/repositories/groups.py:153-164 | The loop up gives the ancestors, the group first |
| GroupDirectories.GroupDirectory.DescendantIds | backend/app/repositories/groups.py:166-177 | The loop down gives exactly the groups whose ancestors include the group |
| GroupDirectories.GroupDirectory.SubtreeDepth | backend/app/repositories/groups.py:179-192 | The height of the subtree |
| GroupDirectories.GroupDirectory.Create | backend/app/services/groups.py:72-102 | Creates, or refuses for the first of its reasons, and keeps the forest |
| GroupDirectories.GroupDirectory.ApplyParent | backend/app/services/groups.py:471-502 | Moves, or refuses for the first of its reasons, and keeps the forest |
| GroupDirectories.GroupDirectory.Dissolve | backend/app/services/groups.py:427-445 | Only without active children, so no active group hangs under an inactive one |

## Left out

- Symbolic links, file-sync failures, differences between Windows and Unix, empty directories, and files
  that change while they are captured or verified.
- SHA-256, SQL and HTTP themselves, and how JSON values are written as bytes.
- VersionNames.NextPatchOfName: version names the requests refuse, with signs, blanks, underscores or other
  than ASCII digits, which Python's `int` would still read.
- Path and identifier validation of deployment and uninstall requests, the look-up of their profiles and target
  paths, and journals whose paths do not fit.
- `acknowledge_missing_quarantine` of the uninstall engine, which nothing calls.
- CacheManager.LocalCache.EnforceCacheBudget: nobody else deletes blobs during a run; blobs that only
  unreadable snapshots need may go, as in the code.
- CacheManager.LocalCache.ClaimSkillForEviction: that the database itself fails is a parameter.
- BlobGc.BlobRegistry.RunBlobGc: uploads and edits during a pass; a receipt comes with the package its stored
  response names, if it names one.
- BlobGc.RunsConvergeIffNotStarved: the tables, and which rows are old, stay as they are from run to run.
- SkillMutations.SkillMutationService.UpdateSkill: the package of legacy content comes as a parameter; audit
  rows, name trimming and package sizes are not modelled.
- SkillMutations.SkillMutationService.SetVersionTags: labels come without surrounding white space.
- SyncServers.SyncServer.ApplySyncMutation: device validation and row locks; whether a package is complete
  here is a parameter of the request.
- SyncMutations.RepeatsChangeNothing: receipts are not trimmed; a repeat later than their retention is
  applied again, as the trim job's documentation says.
- SyncTrim.SyncTables.TrimExpiredRows: receipts of one creation time are listed in some fixed order.
- SyncFeed.PageIsNext: all rows of a page, before the projection skips those the caller may not see.
- SyncMirror.CaughtUpMirrorIsTheServer: private skills on a device without local edits, an untrimmed log,
  and packages that exist; a skill without a package keeps the package the device knew.
- Entitlement leases, grants, workspaces and hydration on the device, conflicts with local edits.
- GroupDirectories.GroupDirectory.ApplyParent: the owner check of the update that calls it, and concurrent moves.
- Joining, inviting, leaving and ownership of groups; accepting a pending invitation can change a role.
- Authentication, templates, settings, telemetry, import and export, the user interface.
