# t-sync, verified

A Dafny model of the t-sync backup SDK: a content-addressed, deduplicating store that consists of one
metadata object (`.tsync`: versions, a Merkle tree of directories, file records) and one part object per
content key. Verify it with `dafny verify dfyconfig.toml`.

What is modelled, from the bottom up:

- **Keys and names** (`Names`, `Keys`): path components, `crc32_size` keys, sharded part names.
- **The Merkle tree** (`Metadata`, `Resolve`, `Canonical`, `Mark`, `Builder`, `TempTree`, `Ideal`): building
  a version from a listing, resolving it path by path (strict and lenient), and marking what is live with
  a shared visited set. The independent meaning of a tree is the relation "this path leads to this leaf
  through hash-verified nodes" (`Resolve.HasFile`, `Resolve.HasEmptyDir`); both walks and the builder are
  proved against it. The hash is any function that is injective on nodes and has a rank under which no
  node lies below itself; both are explicit hypotheses of the theorems that need them, `Ideal` shows they
  can hold together, and marking needs neither to terminate.
- **The upload pool** (`UploadPool*`): any number of workers, the single-flight map, cancellation with a
  cause, the result queue and the gather loop, as interleaved steps; `UploadPoolHistory` ties every failure
  to the step that caused it.
- **The store** (`Objects`, `Store`, `Client`, `Gather`, `Snapshot`, `Backup`): the three operations over a
  storage whose calls may fail with or without effect. The methods log the store after every single storage
  call. `Snapshot` says what a version must show, of entry paths and results alone.
- **Whole histories** (`Lifecycle`, `RunIdentity`): any sequence of backups, version deletions and collections, at the
  grain of worker steps and storage calls, with a crash possible after each.
- **The restore pool** (`RestorePool*`): feed, workers with the commit order of a single extraction,
  cancellation flags and the drain loop, over the destination directory; `RestorePoolHistory` ties every
  result to what happened to its task.
- **Writers** (`PartSize`, `Bucket`, `ObjectWriter`, `LocalWriter`): the buffered multipart writer with its
  buffer pool, and the temp-file-and-rename writer; both make an object visible only on Close and with
  exactly the accepted bytes.
- **ZIP sources** (`ZipDirectory`, `ZipLayout`, `ZipRanges`, `ZipParts`, `EntryStream`): locating the central
  directory, the cached and patched reader, part ranges, and the verifying entry stream.
- **Retries** (`Retry`).

Code that mutates objects is modelled by classes whose methods are proved against functions of their inputs
(`TreeWalker`, `Marker`, `TempDirs`, `Storage`, `BufferPool`, `Writer`, `CachedReader`, `Stream`); goroutines
are modelled as steps of a state machine.

Where the code does not do what one would expect or what its documentation says, the model follows the
code and the exact condition is proved:

- Two entries with one path and different content: the version depends on which worker finishes last
  (`Gather.OrderIrrelevantIff`, `Gather.DuplicatePathExample`).
- `RetryPolicy` documents a doubling delay capped at a positive `MaxDelay`. From the 33rd retry on the shift
  is skipped: without a cap the delay is then zero (`Retry.UncappedFallsToZero`), and with a cap above the
  doubled delay it jumps to the cap. Up to the 32nd the 64-bit shift may wrap: to a non-positive value, which
  counts as the cap (zero without one), or to a positive one, which is used if it is below the cap
  (`Retry.WrappedDelayExample`, `Retry.CappedExample`). `Retry.DocumentedIff` says exactly when the delay is
  the documented one; the default policy always is (`Retry.DefaultIsDocumented`).
- The two int64 sums of `readZipDirectory` can wrap (`ZipDirectory.FoundIsSound`,
  `ZipDirectory.OutOfRangeIff`).
- `cachedTailReaderAt.ReadAt` adds offset and slice length in int64, and `zipEntryStream` counts bytes in
  uint64. Both can only wrap for slices near 2^63 bytes or declared sizes near 2^64; what happens then is
  stated exactly (`ZipRanges.WrappedReadAgreesIff`, `EntryStream.WrapPossibleIff`).
- The specification document lists the removal of part objects together with their records; the code
  writes the metadata first and deletes parts afterwards, and that order is what the crash theorems need.

## Model

| member | source | states |
|---|---|---|
| `Keys.FileKeyInjective` | tsync/backup.go:159-162 | The key fixes both checksum and size: two contents share a key only if CRC-32 and length agree, for every int64 size. |
| `Keys.FileKeyDecodes` | tsync/backup.go:159-162 | A key spells the checksum in eight hex digits and the signed size in decimal, and both can be read back. |
| `Keys.FileKeyValidIff` | tsync/backup.go:159-180 | A computed key passes the well-formedness check exactly when the size is not negative. |
| `Keys.ValidIffRegex` | tsync/client.go:23-24 | The hand-written key check and the regular expression accept the same strings. |
| `Keys.PartKeyInjective` | tsync/backup.go:182-185 | Distinct keys never share a part object. |
| `Keys.PartKeyShape` | tsync/client.go:26-27 | The part name of a valid key has exactly the shape GC looks for, and its base name is the key. |
| `Keys.PartKeyRegexIff` | tsync/client.go:26-27 | The names GC looks at are two hex digits, a slash and a well-formed key, and the base of such a name is that key. |
| `Keys.PartKeyOfLive` | tsync/client.go:309-317 | A part-shaped name with another base name is not the part object of a live key. |
| `Names.JoinInjective` | tsync/restore.go:124-127 | Two different lists of valid components never render to the same path string. |
| `Names.SplitJoin` | tsync/backup.go:792-803 | Splitting a rendered path at slashes gives back its components. |
| `Names.LessIff` | tsync/backup.go:140-150 | The order of names is byte order: the second continues the first, or is larger at the first difference. |
| `Names.ValidPathIff` | tsync/backup.go:73-98 | A path passes validation exactly when every stretch between its slashes has 1 to 255 bytes, no NUL, and is neither '.' nor '..'. |
| `Resolve.TreeWalker.WalkTree` | tsync/restore.go:61-164 | The accumulating walk adds to the caller's map and list exactly what the specification walk returns, fails exactly when that fails, and ends although it keeps no visited set, because it descends only below hash-verified nodes. |
| `Resolve.ResolveVersionTree` | tsync/restore.go:44-59 | Resolution of a version, or the error, is the function of the metadata the later theorems are about. |
| `Resolve.StrictSucceedsIff` | tsync/restore.go:61-164 | The strict walk succeeds exactly when every node reachable from the root is present under its own hash, sorted, and has only good entries. |
| `Resolve.StrictChecks` | tsync/restore.go:61-164 | A strict success has checked every reachable node: its hash, the strictly ascending names, each acceptable, and each entry a file or a non-empty hash. |
| `Resolve.LenientExtendsStrict` | tsync/restore.go:61-164 | The lenient walk never fails, and equals the strict result whenever there is one. |
| `Resolve.LenientFindsExactly` | tsync/restore.go:61-164 | However damaged the store, the lenient walk reports exactly the paths that lead through verified nodes and good entries to a leaf, each with the key of such a leaf; unsorted nodes lose nothing. |
| `Resolve.LenientDirsExactly` | tsync/restore.go:61-164 | And exactly the empty directories such a path leads to. |
| `Resolve.ResolvedPathsSafe` | tsync/restore.go:115-127 | In either mode, whatever the store holds, no component of a resolved path is empty, too long, '.', '..' or holds a NUL. |
| `Resolve.WalkFindsOnly` | tsync/restore.go:108-162 | Every reported path/key pair (lenient or strict) is reached through hash-verified nodes with valid names only, and the path renders that chain of names. |
| `Resolve.WalkFindsAll` | tsync/restore.go:129-140 | Every leaf that is there is reported under its own path; no other entry overwrites it. |
| `Resolve.WalkDirsOnly` | tsync/restore.go:108-112 | Every reported directory is a reachable node with no entries. |
| `Resolve.WalkDirsAll` | tsync/restore.go:108-112 | Every reachable empty directory except the root is reported, in either mode. |
| `Resolve.WalkDirsDistinct` | tsync/restore.go:108-112 | No empty directory is reported twice. |
| `Resolve.AgreeWalk` | tsync/restore.go:61-164 | Two tree maps that agree below a root resolve it alike: the frame of every metadata change. |
| `Canonical.SameContentSameHash` | tsync/backup.go:110-157 | Equal sets of (path, leaf) pairs and empty directories have equal root hashes, in whatever maps they are stored. |
| `Canonical.RootHashIffSnapshot` | tsync/restore.go:45-164 | Under a collision-free hash, two versions of any two stores resolve to the same snapshot exactly when their root hashes are equal. |
| `Ideal.HypothesesHold` | tsync/backup.go:140-153 | The two hash hypotheses (injective, never below itself) are satisfiable together. |
| `Mark.Marker.WalkCollect` | tsync/client.go:187-244 | The shared-visited-set walk ends on every map, cyclic or damaged; it succeeds exactly when every node reachable without passing an earlier mark is sound, and then these nodes are marked with their keys and nothing unreachable is. |
| `Mark.Marker.CollectLive` | tsync/client.go:134-139 | Over all versions the marks are exactly the reachable hashes and their leaf keys, or some version does not resolve; each node body is processed once. |
| `Mark.MarkSucceedsIffResolves` | tsync/client.go:134-139 | Marking from all versions succeeds exactly when strict resolution succeeds for every version. |
| `Mark.LiveKeysAreResolvedKeys` | tsync/client.go:224-230 | The marked file keys are exactly the keys some version resolves to. |
| `TempTree.TempDirs.AddDir` | tsync/backup.go:785-799 | Inserting a directory adds precisely its prefixes and changes no file. |
| `TempTree.TempDirs.AddFile` | tsync/backup.go:801-827 | Inserting a file adds it and its parents, or reports a collision exactly when a file or directory is in the way. |
| `TempTree.TempDirs.BuildAndHash` | tsync/backup.go:110-157 | The stored nodes encode exactly the directory's files and subdirectories, sorted and under their own hashes. |
| `TempTree.BuildTree` | tsync/backup.go:782-834 | ErrPathCollision exactly when some file path equals or is an ancestor of another file's or directory's path, in every insertion order; otherwise the root represents exactly the files and the listed directories with nothing below them. |
| `TempTree.RoundTrip` | tsync/backup.go:782-834 | Resolving the built version gives back exactly the path-to-key map and exactly the empty directories, each once. |
| `TempTree.RootIsIdentity` | tsync/backup.go:110-157 | Two runs get the same root hash exactly when they stored the same leaves at the same paths and the same empty directories. |
| `UploadPoolProofs.StepInv` | tsync/backup.go:313-388 | Every step of every interleaving of workers, gather loop and cancellation keeps: one place per task, one owner per open flight, one record per key, parts committed before their records are shared. |
| `UploadPoolBlame.StepBlame` | tsync/backup.go:313-388 | Every step keeps: an error that names an entry, wherever it has travelled (cause, flights, siblings, results), is that entry's own failure, on its way or already reported. |
| `UploadPoolRuns.NotStuck` | tsync/backup.go:367-388 | In every reachable state that is not final some worker or the gather loop can move: a waiter only waits on a flight whose owner is itself uploading. |
| `UploadPoolRuns.RunsEnd` | tsync/backup.go:718-746 | Every run ends within 10 steps per task plus one per worker and one, in any order, and where nothing can move every worker has exited and every result is drained. |
| `UploadPoolRuns.RunUploadsOnce` | tsync/backup.go:358-388 | In every state of every run, each key was uploaded at most once, never if the loaded metadata has it, and all successful entries with one key carry one record. |
| `UploadPoolRuns.RunAnswers` | tsync/backup.go:312-327 | At the end of every run each entry has exactly one result; the run is complete exactly when no entry failed and the caller did not cancel; and with a live caller an incomplete run returns the error of an entry whose own result is that failure. |
| `UploadPoolHistory.FailedIff` | tsync/backup.go:329-388 | Over whole runs: an entry's result is its own failure exactly when its key computation or upload failed in some step of the worker that held it, and an error that names an entry is found only where that entry failed so. |
| `UploadPoolHistory.SucceedsIff` | tsync/backup.go:313-388 | A finished run succeeds exactly when no entry's own key computation or upload failed and the caller did not cancel: sharing an upload, waiting for one or finding a known key never fails a run. |
| `UploadPoolHistory.UntakenFail` | tsync/backup.go:329-356 | The first cause stays, and an entry no worker had taken when it struck ends with exactly that cause. |
| `UploadPoolRuns.CompleteMeansStored` | tsync/backup.go:538-554 | The run counts as complete exactly when nothing cancelled it, and then every entry succeeded with an old record or with a freshly committed part of its own key. |
| `UploadPoolRuns.StepLeavesOthers` | tsync/backup.go:405-454 | A step touches no object other than the part of a key this run started to upload. |
| `Gather.GatherResults` | tsync/backup.go:748-776 | The gathered maps are the folds of the results in arrival order, and the first error is the first failed result. |
| `Gather.OrderIrrelevantIff` | tsync/backup.go:748-771 | The gathered path map is independent of the completion order exactly when no two entries claim one path with different content. |
| `Gather.DuplicatePathExample` | tsync/backup.go:769-770 | Two entries for one path: whichever finishes last decides what the version holds. |
| `RunIdentity.RunsAgree` | tsync/backup.go:748-834 | Two complete runs over the same entries with the same contents, from any stores, with any number of workers and in any interleaving, commit the same root hash, unless two entries claim one path with different content. |
| `Backup.DrainedHolds` | tsync/backup.go:733-780 | What the drained pool hands over: every key known, complete exactly without failures, records under their own keys and intact when complete. |
| `Snapshot.CollidesIffClash` | tsync/backup.go:782-834 | The collision test is, of the entries alone: a stored file's path is a listed directory's path or lies above another entry's path, as strings. |
| `Snapshot.FilesShown` | tsync/backup.go:801-827 | A version that represents the run resolves every stored path, to the key of the last result for it, and no other path. |
| `Snapshot.DirsShown` | tsync/backup.go:785-799 | And lists, once each, exactly the listed directories that no other entry lies under. |
| `Snapshot.NextRecords` | tsync/backup.go:859-881 | The metadata a complete run writes: the new version under its id beside the old ones (alone in single-version mode), the records of its entries, and a resolution that shows exactly its entries. |
| `Backup.Prepare` | tsync/backup.go:748-834 | Up to the commit nothing is written; the outcome is a failed run, a path clash between entries, or a root that represents what was gathered, each exactly when its condition holds. |
| `Backup.CommitRestorable` | tsync/backup.go:836-881 | The metadata about to be committed leaves every version of the store, new and old, restorable. |
| `Backup.FinishBackup` | tsync/backup.go:748-899 | On success the version is in the metadata under its id with the given comment, beside exactly the loaded ones or alone in single-version mode, and resolves to exactly the entries of the run. Metadata is written only by a complete run without clashes, in one write with every object still in place; a failed write follows a failed call and leaves the metadata as loaded or as intended; stale parts of single-version mode are then gone or were refused, nothing else goes; every state on the way keeps the store invariant. |
| `Store.RestorableRestores` | tsync/restore.go:296-363 | In a restorable store every version resolves strictly and each path leads to a record that names its own key and to the part written for it. |
| `Store.CommitKeeps` | tsync/backup.go:859-881 | Adding a built version (keeping the old ones or replacing them) keeps the store restorable. |
| `Store.BackupPreserves` | tsync/backup.go:869-877 | A backup that keeps old versions changes neither their resolution nor any of their records. |
| `Store.NewMetadataAdds` | tsync/backup.go:859-877 | The new metadata holds the new version under its id, the old versions or, in single-version mode, none, and the old records overlaid with the new ones. |
| `Store.BackupResolvesNew` | tsync/backup.go:875-877 | In the merged metadata the id of the new version resolves as its own tree does. |
| `Store.PruneKeeps` | tsync/client.go:141-159 | Dropping unmarked trees and records keeps every version restorable and resolves each as before. |
| `Store.PruneExact` | tsync/client.go:266-281 | After pruning, the trees are exactly the reachable ones and the records exactly those of live keys. |
| `Store.DeletedExact` | tsync/client.go:122-159 | A deletion takes out one version and no other, and leaves verbatim exactly the trees some remaining version reaches. |
| `Store.OrphanUnneeded` | tsync/client.go:309-317 | What GC deletes from the listing is needed by no record. |
| `Store.OrphanIff` | tsync/client.go:309-317 | An orphan is named by two hex digits, a slash and a well-formed key without a record. |
| `Client.DeleteVersion` | tsync/client.go:114-184 | Each error exactly when its condition holds and then nothing is changed; on success exactly this version is gone, the metadata is the pruned rest and only parts of dropped keys are gone, each gone or refused in this very call; every storage call leaves an invariant-keeping store. |
| `Client.MarkAndSweep` | tsync/client.go:130-159 | Marking from every version and sweeping what is unmarked yields exactly the pruned metadata and the dropped keys, or fails exactly when some version is damaged. |
| `Client.GC` | tsync/client.go:249-322 | Same for GC: exact pruning, every orphan gone or refused in this very call, no write and no delete on a store with nothing to collect. |
| `Client.CollectedAfterGC` | tsync/client.go:249-322 | A GC whose deletes succeed leaves nothing to collect, so an immediate second one changes nothing. |
| `Client.CollectTwice` | tsync/client.go:249-322 | A GC none of whose deletes was refused, repeated at once: the second writes and deletes nothing. |
| `Lifecycle.StepInv` | tsync/backup.go:556-899 | Every step (worker step, commit, delete, collection, object removal, crash) of every client operation keeps the store invariant. |
| `Lifecycle.EveryVersionRestores` | tsync/backup.go:653-897 | In every state of every history of Backup, DeleteVersion and GC with crashes anywhere and any call failing, every committed version resolves strictly down to the parts written for it. |
| `Lifecycle.VersionPersists` | tsync/backup.go:869-877 | From its commit on a version keeps its resolution, its records and its parts' content through everything that follows, until it is deleted or a single-version backup replaces the store. |
| `Lifecycle.CommitRecords` | tsync/backup.go:859-881 | An applied commit puts the run into the metadata: its version beside the old ones or alone, resolving to exactly the entries of the run, and in single-version mode the parts of dropped records up for deletion. |
| `Lifecycle.VersionShowsItsRun` | tsync/backup.go:653-897 | From the commit of a run on, through everything that follows until its version is deleted or replaced, that version resolves to exactly the entries of that run. |
| `Lifecycle.EveryVersionIsARun` | tsync/backup.go:653-897 | In every reachable state each version is the work of an earlier committed run and resolves to exactly its entries. |
| `Lifecycle.PrunedAfter` | tsync/client.go:114-184 | An applied deletion takes one version out and a collection none; both leave exactly what some version reaches and go on to delete the parts of all dropped records. |
| `Lifecycle.UncommittedChangesNothing` | tsync/backup.go:718-780 | Over any stretch of a history without a commit, deletion or collection, with any number of backup starts, worker steps, failures and crashes, the metadata and the part of every record in it stay the same. |
| `Lifecycle.CommitMeansAllStored` | tsync/backup.go:778-780 | The commit step is possible only when every entry has its one successful result, of its own kind and under its own declared key, and each record's part is committed. |
| `RestorePoolProofs.StepInv` | tsync/restore.go:426-615 | Every step of every interleaving of the feed, the workers, cancellation and the drain loop keeps the pool's invariant. |
| `RestorePoolProofs.RunsEnd` | tsync/restore.go:547-615 | Every run ends within 12 steps per task plus one per worker and three; where nothing can move all workers have exited and all results are drained. |
| `RestorePoolProofs.RunReturns` | tsync/restore.go:594-615 | A finished run returns success exactly when the caller did not cancel and no task failed; with a live caller a failure makes it return the first result, in the order they arrived, that is not marked cancelled. |
| `RestorePoolHistory.ResultExplained` | tsync/restore.go:547-592 | Over whole runs: whatever an extraction gave up with is skipped if it may be and else reported as it is; a skipped task broke with an error that may be skipped; a failed one with its own error or as an echo of a cancellation. |
| `RestorePoolHistory.SucceedsIff` | tsync/restore.go:547-615 | A finished run succeeds exactly when the caller did not cancel and every error an extraction gave up with (reported from outside, content that differs from the record, or a missing record) may be skipped. |
| `RestorePoolHistory.UntakenCancelled` | tsync/restore.go:551-557 | A task no worker had taken when the pool was cancelled is answered as cancelled, its destination as it was. |
| `RestorePoolHistory.EchoesAreMarked` | tsync/restore.go:564-568 | Once the pool is cancelled, an extraction still under way that ends in a cancellation is marked, and its error is never the one returned. |
| `RestorePoolHistory.PresentIsLeft` | tsync/restore.go:436-452 | A readable destination that already holds what the record describes, or that must not be overwritten, is left alone and counts as a success. |
| `RestorePoolHistory.NeverOverwrites` | tsync/restore.go:436-443 | With NoOverwrite no destination that was there changes at any point of any run. |
| `RestorePoolProofs.RunAccounts` | tsync/restore.go:426-545 | Every task has exactly one result, and it tells what became of the destination: a failed, kept, identical or skipped one is exactly as it was, a restored one holds content its record vouches for. |
| `RestorePoolProofs.DestinationsAlwaysSound` | tsync/restore.go:515-538 | At every point of every run each destination holds its old content or bytes matching a record's length and CRC-32. |
| `PartSize.PartSizeFor` | tsync/storage.go:481-497 | The loop computes min(8 MiB * 2^((n-1)/1000), 5 GiB) and stays within int64 on the way. |
| `PartSize.SizesGrow` | tsync/storage.go:481-483 | Part sizes never shrink and stay between 8 MiB and 5 GiB. |
| `PartSize.CapacityCoversObjectLimit` | tsync/storage.go:481-483 | 10,000 full parts hold more than the 5 TiB object limit. |
| `ObjectWriter.Writer.Write` | tsync/storage.go:554-582 | A prefix of the argument is accepted, all of it unless an error is returned; errors are sticky; nothing becomes visible; a rejection follows a failed call of the service, and running out of part numbers means more than 5 TiB were accepted. |
| `ObjectWriter.Writer.UploadBufferedPart` | tsync/storage.go:584-605 | One more part is recorded under the next number with its etag, or nothing changes; etags always cover exactly the shipped numbers. |
| `ObjectWriter.Writer.EnsureBuffer` | tsync/storage.go:532-552 | A buffer is large enough for the whole part, and comes from this writer, the pool or fresh memory, never from another writer. |
| `ObjectWriter.Writer.Close` | tsync/storage.go:635-662 | On success the object is exactly the accepted bytes; after an earlier error or an abort it is untouched; it fails only after a failed call or beyond 5 TiB; a finished multipart upload ends in a non-empty part of allowed size. |
| `ObjectWriter.LayoutUnique` | tsync/storage.go:554-582 | Which parts are shipped depends on the accepted bytes alone, not on how Write calls chunked them. |
| `ObjectWriter.StorePart` | tsync/backup.go:427-454 | A record is returned only if the content was produced, the key of the checksum and size the part writer reports is the key it was uploaded for, and the object is exactly that content; with another key, or without a content, the object is untouched; otherwise no record means a failed call or more than 5 TiB. |
| `Bucket.OneToK` | storage_clients/http/http.go:421-433 | Ascending order of the part numbers 1..k is the shipping order. |
| `LocalWriter.Writer.Close` | tsync/storage.go:306-334 | The destination gets exactly the accepted bytes, or no name but the temp file changes; without a cancellation that takes a failed call. |
| `LocalWriter.Writer.Abort` | tsync/storage.go:336-347 | Abort changes no name but the temp file. |
| `ZipDirectory.TailScanSuffices` | tsync/zip_utils.go:50-77 | The backward scan of the last 66 KiB finds exactly the record a scan of the whole file would find. |
| `ZipDirectory.ReadZipDirectory` | tsync/zip_utils.go:42-118 | The tail-and-cache reading gives what the whole file says, or a read of the archive failed. |
| `ZipDirectory.FoundIsSound` | tsync/zip_utils.go:114-116 | The directory belongs to the last end record and lies before it exactly when the sum of its offset and size is an int64. |
| `ZipDirectory.OutOfRangeIff` | tsync/zip_utils.go:97-108 | The slice of the cached tail stays in bounds exactly when the locator's offset is not within 56 of 2^63. |
| `ZipLayout.NotZipIff` | tsync/zip_utils.go:44-77 | An archive is refused as no ZIP exactly when no stretch of its bytes is an end record whose comment reaches the end of the file. |
| `ZipLayout.HasLocatorIff` | tsync/zip_utils.go:92-96 | A zip64 locator is there exactly when the four bytes twenty before the end record are 'PK', 6, 7. |
| `ZipLayout.PlainReadsBack` | tsync/zip_utils.go:79-116 | An archive laid out as APPNOTE.TXT 4.3.16 says, without these four bytes, is read back field by field, or refused exactly when its directory runs into the end record. |
| `ZipLayout.Zip64ReadsBack` | tsync/zip_utils.go:92-116 | A zip64 archive laid out as 4.3.14 and 4.3.15 say, with any unsigned fields, is read back by its zip64 record, or refused exactly when its directory runs into that record (the wrapping sum of FoundIsSound aside). |
| `ZipLayout.BadLocatorRefused` | tsync/zip_utils.go:96-110 | A locator that does not lead to bytes marked as a zip64 record before it makes the archive corrupt. |
| `ZipLayout.WrappedSumExample` | tsync/zip_utils.go:114 | A 98-byte file whose directory sum wraps is accepted. |
| `ZipLayout.WrappedLocatorExample` | tsync/zip_utils.go:98-108 | A 98-byte file whose locator sum wraps passes the range check and leaves the slice. |
| `ZipRanges.CachedReader.ReadAt` | tsync/zip_utils.go:141-173 | For every offset and slice length: the bytes, count and EOF of reading the archive truncated after the end record with its comment length zeroed, across the cache boundary too; where offset plus length is no int64, those of reading the archive itself. |
| `ZipRanges.WrappedReadAgreesIff` | tsync/zip_utils.go:157-160 | Such a wrapped read agrees with the truncated archive all the same exactly when that is the whole archive, |
| `ZipRanges.ViewIsWholeIff` | tsync/zip_utils.go:201-205 | that is, exactly when the comment is empty. |
| `ZipRanges.ViewEnds` | tsync/zip_utils.go:201-205 | In the truncated archive the end record closes the file with an empty comment, and every other byte is the archive's. |
| `ZipRanges.ViewParsesAlike` | tsync/zip_utils.go:201-206 | Reading its directory again, as the library does, gives the validated one. |
| `ZipParts.BuildCache` | tsync/zip_utils.go:187-206 | Cache and archive together show that truncated archive; every slice is in bounds. |
| `ZipParts.BuildRanges` | tsync/zip_utils.go:232-251 | Ranges are built exactly when all offsets differ; an overlap names two entries that do share an offset, and the next entry it names exists. |
| `ZipParts.TilesAreDisjoint` | tsync/zip_utils.go:232-251 | The ranges are strictly sorted, non-empty and pairwise disjoint. |
| `ZipParts.TilesCover` | tsync/zip_utils.go:232-251 | They leave no gap from the first header to the central directory. |
| `ZipParts.GetZipPartRanges` | tsync/zip_utils.go:181-254 | Ranges for every listed entry are returned exactly when the directory is found and the listing is consistent with it; otherwise the error says which, or a read of the archive failed. |
| `EntryStream.Stream.Read` | tsync/source.go:240-262 | Errors are sticky, and each outcome says what went through: the end is only reported when the 64-bit count and the checksum match, a size or checksum error only when they do not, any other error only after a failed read. |
| `EntryStream.CopyAll` | tsync/source.go:240-262 | Copying to a clean end yields a content with the declared checksum and, modulo 2^64, the declared size, exactly the declared content whenever size plus slice length stays below 2^64; a size or checksum error only when the entry is not the declared content. |
| `EntryStream.WrapPossibleIff` | tsync/source.go:246-250 | The count can pass 2^64 unnoticed exactly when declared size and slice length reach 2^64 together. |
| `EntryStream.WrappedCountExample` | tsync/source.go:246-250 | Five reads, each below 2^63 bytes, that pass the size check with 2^64 bytes too many. |
| `Retry.Do` | storage_clients/retry.go:132-160 | For every error trace the loop stops at the first attempt the policy does not continue after, within max(1, MaxAttempts, MaxStatusAttempts) attempts, without a wait after the last; the sleep lies between the sums of half and full backoffs, each raised to the granted server hint. |
| `Retry.AttemptsMade` | storage_clients/retry.go:102-109 | In numbers: retryable statuses are tried MaxStatusAttempts times if that is positive, other transient errors MaxAttempts times, and at least once. |
| `Retry.DefaultAttempts` | storage_clients/retry.go:74-83 | By default eight tries for retryable statuses and four for other transient errors. |
| `Retry.Backoff` | storage_clients/retry.go:85-99 | Every backoff lies between half the ceiling and the ceiling, and is at most a positive MaxDelay, even when the shift wraps. |
| `Retry.DocumentedIff` | storage_clients/retry.go:64-68 | The ceiling is the documented doubling capped at MaxDelay exactly under the stated condition on shift, wrap and cap. |
| `Retry.UncappedFallsToZero` | storage_clients/retry.go:85-99 | Every policy without a cap waits zero from the 33rd retry on, where it is documented to wait at least its base delay times 2^32. |
| `Retry.UncappedExample` | storage_clients/retry.go:85-99 | Half a second without a cap: the 34th retry waits zero, where the documentation says more than a second. |
| `Retry.WrappedDelayExample` | storage_clients/retry.go:89-93 | Nine seconds without a cap: at the 32nd retry the shift wraps to a positive delay below the documented one. |
| `Retry.CappedExample` | storage_clients/retry.go:89-93 | A capped policy that is documented to wait 20 s at the 32nd retry and waits about two, because the shift wraps below the cap. |
| `Retry.DefaultIsDocumented` | storage_clients/retry.go:74-83 | The default policy always waits as documented. |
| `Retry.DefaultWorstCase` | storage_clients/retry.go:74-83 | The default policy sleeps at most 51.5 s in a run without server hints. |

## Left out

- Names that are not valid UTF-8: marshalling a node can fail in the source; the model's encoding is total.
- CRC-32, SHA-256, protobuf, Deflate, ZipCrypto and NaCl: a part's content, sizes and password are one value
  (`Sealed(record)`), CRC-32 is any function, the hash is any function meeting the hypotheses.
- Key material, public keys, compression levels, labels, timestamps, the latest-version checks, source
  listing and filters, progress callbacks and option validation: single-branch facts that touch no invariant.
- Metadata reads that fail for another reason than a missing object return before anything happens.
- Metadata is decoded by value; unknown protobuf fields and the schema number are not represented.
- Two clients on one store at once: the source takes no lock and makes no claim.
- Storage writes that take effect after the client has crashed: a call takes effect before it returns or not at all.
- The Go memory model below channels, mutexes and atomics: each step of a worker is atomic, and the caller's
  cancellation reaches the upload pool in one step (in the restore pool in two).
- `tempDirNode` pointers are indices of one arena, so no two parents can share a child; in the source none do.
- `sort.Slice` is a function (`Builder`) or an insertion sort (`ZipParts`): only its result matters.
- restoreToZip, `RunRestore`'s path filters, empty-directory recreation, disk-space checks, chmod, fsync of
  directories, temp-file naming and removal in restoreToDir, and case-insensitive or aliasing destinations:
  a destination is its archive path, and the paths are distinct because they are keys of a map.
- A stale or failing read of an existing destination counts as "not identical".
- The network clients: a call on a bucket succeeds, fails, or fails after taking effect; buckets hold one key.
- zip-xxh3: what the library lists is any function of the bytes the cached reader shows it.
- UploadPoolRuns.RunAnswers: assumes that source and storage calls report a cancellation only once the run context is cancelled.
- Retry.Do: `runAttempt` and error classification are part of the trace; a wait that is interrupted counts as no sleep.
- `openZipEntryStream`, `isWinZipAE2`, MS-DOS time stamps and Retry-After parsing: easy, independent of the rest.
