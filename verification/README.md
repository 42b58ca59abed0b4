# Verified models of the FUSE mount, the cluster listing and the pack archive

These Dafny modules model the parts of the command line tool where state is changed step by step and
where a mistake loses data:

- the **FUSE write path**: open handles with a buffer, a base version and dirty ranges; the upload that
  chooses between a whole write and a patch of the dirty parts; the pending store; drain and recovery
  (`Versions`, `DirtyRanges`, `Upload`, `WriteBack`, `Handles`, `Drain`, `DrainEnd`), and whole runs of a
  mount with other writers at work (`Protocol`, with `Steps` for what each step does and `Premises` for what
  the runs must not do, and exactly when each of it is harmless);
- the **read cache** (`ReadCache`);
- the **re-pagination** of the cluster list (`Pagination`);
- **packing, unpacking and the audit of symbolic links** (`FileTree`, `PackTree`, `PackArchive`,
  `PackExtract`, `PackInstall`, `PackUnpack`, `OverlayAudit`, `PathStrings`), for a user who owns the files
  and is bound by their permission bits, or is not; and what the prefix tests on remote paths mean
  (`RemotePaths`);
- the **layered Git view** (`GitView`) and the **append by patch** (`AppendPatch`).

`Basics`, `Division` and `GoSort` hold what the others share. Methods follow the program's own steps on
its own state and are proved equal to functions; the results are lemmas about those functions, and what
each function computes is stated once more without naming it or its helpers, in bytes, paths, bits and
numbers.

The remote service, other writers, the local disk, the clock and the order in which Go walks a map are
parameters (`Net`, `Others`, `Disk`, `Replay`, `now`, an arbitrary listing of a set). Hashes are assumed
free of collisions; JSON, Base64, gzip and tar are taken as faithful encodings. The service is taken at
its word: a patch with an expected revision is refused when the file has another one, and replaces the
parts sent and keeps the rest when it is not.

The results about whole runs have these premises:

- an upload is one step (`Protocol.Atomic`): nobody writes between the version check and the write, nor
  between a patch and the stat after it, from which the handle takes its new version, and a reply to a
  whole write carries the stored revision. Each part is needed: `Upload.WholeWriteCanReplaceNewerContent`,
  `Premises.ForeignWriteIsAdopted`, `Premises.UnreportedRevisionBlocksNextFlush`;
- at one path a revision never stands for two different contents, for the whole run (`Protocol.AllNamed`
  with `Protocol.Grows`); so a file that is removed and created again, or renamed over another one, does not
  start again with a revision that the path has had before with other bytes;
- the three places that rebind a handle are used only where they are harmless (`Protocol.Benign`).

Where the code does not do what one would expect, the model follows the code and says exactly when it
does:

- a whole write carries no expected revision, so a write by somebody else between the check and the
  write is replaced (`Upload.WholeWriteCanReplaceNewerContent`), and a decision to patch does not help when
  the file is removed in between (`Upload.RemovedFileIsRecreated`); an upload replaces what it checked iff
  it ends as a patch or the write finds the checked content (`Upload.UploadReplacesCheckedIff`);
- a write by somebody else between a patch and the stat after it is taken for the handle's own: the flush
  commits the buffer iff there is none with other content (`Premises.StatAfterPatchIff`); otherwise the
  cache learns the wrong bytes and a later flush replaces theirs (`Premises.ForeignWriteIsAdopted`);
- opening a file with a dirty handle, truncating a path and renaming rebind a handle without reading
  again: harmless iff `Premises.InheritedIsCoherentIff`, `Premises.RefreshedIff`,
  `Premises.RenamedHandleIff`, with inputs where it is not;
- a handle's own next check passes iff the reply to its write carried the stored revision
  (`Premises.NextCheckPassesIff`);
- the size limit of a write is never reported on 64-bit integers, the addition overflows instead
  (`Handles.WriteLimit`);
- recovery can replay an older pending write over a buffer that the same drain has just flushed past the
  pending store; the drain keeps a buffer iff `DrainEnd.DrainEndsWithBuffers`
  (`DrainEnd.OlderEntryOverwrites` is an input where it does not);
- while a handle is open that is dirty but not writable, a drain always reports a failure
  (`Drain.DrainMount`); a change of mode through a read-only handle makes one (`Drain.ModeChangeMakesOne`);
- a packed directory that its owner cannot write is created with its own permission bits before its
  entries come, and refuses them (`PackExtract.UnwritableDirectoryBlocks`); an empty one cannot be moved out
  of the stage (`PackUnpack.UnwritableSourceIsNotMoved`);
- the append by patch shares one offset between callbacks that run concurrently
  (`AppendPatch.OrderIsHarmlessIff`);
- a Git directory may list a name that does not resolve, or the other way round, depending on the order
  in which a map is walked (`GitView.ListingAgreesWithResolution`);
- a name with a backslash is packed but refused by the unpack (`PackExtract.EntryNameRoundTrip`);
- the audit's comments attribute a link to the run when its resolution passes through a path that was
  installed, changed or removed; the code does so only if the resolution ends and such a path still
  exists (`OverlayAudit.AttributionExact`), so an unchanged link to a newly installed cycle stays
  (`OverlayAudit.LinkToNewCycleStays`);
- fingerprints tell pages apart only if no identifier has a zero byte (`Pagination.FingerprintIsUniqueIff`),
  and a call that meets a chain of empty upstream pages that never ends does not end either
  (`Pagination.EveryCallEndsIff`).

## Model

| member | source | states |
|---|---|---|
| `Versions.VersionsCompare` | internal/fs/fuse_version.go:20-45 | a version meets a requirement iff they do not conflict and it reports all that is required; a conflict is two reported identifiers or revisions that differ, so it is symmetric and never with itself |
| `Versions.RevisionIsTakenOver` | internal/fs/fuse_version.go:47-52 | a reported revision replaces the old one, an unreported one and the identifier change nothing |
| `DirtyRanges.CanonicalUnique` | internal/fs/fuse_mount.go:431-462 | a sorted list with gaps is determined by the bytes and positions it covers |
| `DirtyRanges.MergedEqualIffSameCover` | internal/fs/fuse_mount.go:431-462 | two lists merge to the same result iff they cover the same bytes and positions |
| `DirtyRanges.MergedIdempotent` | internal/fs/fuse_mount.go:431-462 | merging twice is merging once |
| `DirtyRanges.MergedPermutation` | internal/fs/fuse_mount.go:431-462 | the order of the input does not matter |
| `DirtyRanges.CompactInPlace` | internal/fs/fuse_mount.go:448-461 | the compaction over the shared array reads every element before it overwrites it; the result has gaps and the same cover |
| `DirtyRanges.MergeFuseDirtyRanges` | internal/fs/fuse_mount.go:431-462 | the program's clean, sort and compact gives the canonical form, which is defined by adding one interval at a time |
| `DirtyRanges.TotalDirty` | internal/fs/fuse_mount.go:407-413 | the sum over the merged ranges counts every dirty byte once, whatever overlaps |
| `DirtyRanges.PartInterval` | internal/fs/fuse_mount.go:479-481 | the parts from the first to the last byte of an interval are exactly those holding one of its bytes |
| `DirtyRanges.FuseDirtyParts` | internal/fs/fuse_mount.go:464-490 | strictly increasing, and a part is listed iff it holds a dirty byte of the new file, an isolated empty range counting as one byte |
| `DirtyRanges.DirtyPartsCover` | internal/fs/fuse_mount.go:464-490 | exact cover: numbers stay within the file, every dirty byte is in a listed part, every listed part meets a range |
| `ReadCache.FuseReadCache.constructor` | internal/fs/fuse_cache.go:30-47 | limits fall back to the defaults; an empty cache is valid |
| `ReadCache.FuseReadCache.Get` | internal/fs/fuse_cache.go:49-69 | a hit is the last admitted put for the path since its last invalidation, under a matching version; it moves to the front, an expired entry is dropped, a mismatch is kept |
| `ReadCache.FuseReadCache.Put` | internal/fs/fuse_cache.go:71-106 | the survivors are the longest prefix of the recency order that fits; an oversized put changes nothing |
| `ReadCache.FuseReadCache.Trim` | internal/fs/fuse_cache.go:99-105 | the eviction loop ends within the limit and keeps the longest prefix that fits |
| `ReadCache.FuseReadCache.Evict` | internal/fs/fuse_cache.go:132-136 | items, list and size stay in step |
| `ReadCache.FuseReadCache.Invalidate` | internal/fs/fuse_cache.go:108-117 | exactly this path goes |
| `ReadCache.FuseReadCache.InvalidatePrefix` | internal/fs/fuse_cache.go:119-130 | exactly the path and what lies below it go, in whatever order the map is walked; the recency order of the rest stays |
| `ReadCache.MirrorsStore` | internal/fs/fuse_cache.go:71-98 | storing at the front keeps items and list in bijection and the size the sum of the lengths |
| `ReadCache.EvictLast` | internal/fs/fuse_cache.go:99-105 | one round of eviction only shortens the recency order, and everything longer is too large |
| `ReadCache.WithoutIsFilter` | internal/fs/fuse_cache.go:132-136 | what leaves the list leaves the order of the others as it was |
| `ReadCache.HitReturnsNamedContent` | internal/fs/fuse_cache.go:49-136 | if a revision determines the content, a hit for a revision returns that content after any history |
| `Upload.Uploader.CheckWriteBase` | internal/fs/fuse_mount.go:383-398 | passes a known base only if the file exists without a conflicting version |
| `Upload.CheckRefuses` | internal/fs/fuse_mount.go:383-398 | the check in plain terms: nothing is refused without a known base; else the file must be there and report no other revision or identifier, and a failed lookup is no conflict |
| `Upload.Uploader.ShouldPatchFuseWrite` | internal/fs/fuse_mount.go:400-414 | a patch is chosen iff the base is known and not empty, the size is unchanged, and some but not all bytes are dirty |
| `Upload.Uploader.PatchUpload` | internal/fs/fuse_mount.go:354-381 | sends exactly the dirty parts, and reports unsupported patches apart from refused ones |
| `Upload.PatchOutcomes` | internal/fs/fuse_mount.go:354-381 | every outcome of a patch: nothing to send, unsupported, refused, stored with or without a version read back; only an accepted one is a change |
| `Upload.PartSizeIsLeast` | internal/api/fs/upload.go:1144-1155 | whole mebibytes between 8 and 512, at most 10000 parts unless 512 do not suffice, and the least such size |
| `Upload.PartLengthMeans` | internal/api/fs/upload.go:1130-1142 | a part has exactly the bytes of the file from its start up to its length, the last part included |
| `Upload.Uploader.Upload` | internal/fs/fuse_mount.go:333-352 | check, then patch or whole write, with the fall back from an unsupported patch to a whole write |
| `Upload.ListedPartIsBuffer` | internal/fs/fuse_mount.go:360-372 | a part that is sent holds exactly the buffer's bytes, for every part size |
| `Upload.PatchIsWholeWriteIff` | internal/fs/fuse_mount.go:354-381 | a patch gives what the whole write would iff the original agrees with the buffer in every part not sent |
| `Upload.TrackedPatchIsBuffer` | internal/fs/fuse_mount.go:354-381 | if all differences are inside the dirty ranges, the patch gives the buffer |
| `Upload.UploadStoresBuffer` | internal/fs/fuse_mount.go:333-352 | a successful upload leaves the buffer on the remote, by patch, by whole write or by the fall back |
| `Upload.PatchReplacesItsBase` | internal/fs/fuse_mount.go:354-381 | sent with its base as the expected revision to a service that refuses any other, a patch replaces that revision or nothing, whoever writes meanwhile |
| `Upload.UploadReplacesCheckedIff` | internal/fs/fuse_mount.go:333-352 | whatever the service answers and whoever writes meanwhile, the last change of an upload replaced the checked content iff a patch made it, or the whole write found the checked content |
| `Upload.RemovedFileIsRecreated` | internal/fs/fuse_mount.go:339-351 | an input: somebody removes the file after the check, the patch falls back, and the upload creates the file again |
| `Upload.WholeWriteCanReplaceNewerContent` | internal/fs/fuse_mount.go:343-351 | the whole write carries no expected revision: an input where newer content is replaced and the upload succeeds |
| `Upload.WholeBufferIsNotPatched` | internal/fs/fuse_mount.go:400-414 | the range over the whole buffer is never patched |
| `WriteBack.WriteBackStore.constructor` | internal/fs/fuse_writeback.go:48-56 | an empty store with the default size limit for a negative one |
| `WriteBack.WriteBackStore.PutAndUpload` | internal/fs/fuse_writeback.go:58-73 | journal, upload, forget; a large buffer bypasses the journal; each disk failure has its own outcome |
| `WriteBack.JournalKeepsFailures` | internal/fs/fuse_writeback.go:58-73 | the remote, the journal and the result for every outcome of the disk and of the upload: the entry stays, with all its fields, exactly if something failed |
| `WriteBack.FailedUploadIsKept` | internal/fs/fuse_writeback.go:58-129 | a failed upload leaves an entry whose replay asks for the very same upload; other entries are untouched |
| `WriteBack.WriteBackStore.PendingEntries` | internal/fs/fuse_writeback.go:153-175 | the one list of the entries in the order of their file names, whatever the directory yields |
| `WriteBack.WriteBackStore.ReplayAll` | internal/fs/fuse_writeback.go:75-102 | stops at the first failure; exactly the entries before it are gone |
| `WriteBack.ForeignEntryStops` | internal/fs/fuse_writeback.go:75-140 | an entry of another mount, of a negative or wrong size, or unreadable stops the recovery with the remote as it was; any other is uploaded |
| `WriteBack.WriteBackStore.Recover` | internal/fs/fuse_writeback.go:75-102 | a success empties the store and counts all entries; a failure at an entry leaves that one and the later ones |
| `WriteBack.RecoverConserves` | internal/fs/fuse_writeback.go:75-102 | every entry before the stop was uploaded exactly once and in order, nothing after it was tried |
| `WriteBack.WriteBackStore.PendingStats` | internal/fs/fuse_writeback.go:177-196 | the number of the entries that belong to this mount, and the sum of their sizes |
| `Handles.FuseRuntime.WriteFileWithDirty` | internal/fs/fuse_mount.go:317-331 | through the store if there is one; the cache learns the bytes on success and forgets the path on failure |
| `Handles.StoreUpdatesCache` | internal/fs/fuse_mount.go:317-331 | the cache knows the new bytes under the new version after a success, nothing of the path after a failure, and of other paths what it knew |
| `Handles.FuseRuntime.ReadFile` | internal/fs/fuse_mount.go:282-292 | at the current revision returns the remote content, from the cache or not |
| `Handles.RemoteFuseFile.constructor` | internal/fs/fuse_mount.go:1515-1531 | registers the handle; a dirty one starts with its whole buffer dirty |
| `Handles.OpenGivesHandle` | internal/fs/fuse_mount.go:1515-1531 | every field of a new handle, and which bytes of it are dirty |
| `Handles.RemoteFuseFile.Write` | internal/fs/fuse_mount.go:1563-1584 | the buffer is overwritten and padded with zeros, the range is merged in; each refusal changes nothing |
| `Handles.WriteChanges` | internal/fs/fuse_mount.go:1563-1584 | when a write succeeds, which bytes the buffer then has at every position, which are dirty, and that nothing else changes |
| `Handles.RemoteFuseFile.Setattr` | internal/fs/fuse_mount.go:1627-1651 | resizes or changes the mode and forces a whole upload |
| `Handles.SetattrChanges` | internal/fs/fuse_mount.go:1627-1651 | when it is refused, changing nothing; else the size, every byte (zeros beyond the old end), the mode, and that the next upload is a whole one |
| `Handles.RemoteFuseFile.MarkDirtyRange` | internal/fs/fuse_mount.go:1694-1702 | the ranges become the canonical form of the old ones and the new one |
| `Handles.RemoteFuseFile.Flush` | internal/fs/fuse_mount.go:1660-1692 | on success the handle is clean with the new version and size as base, on failure it is unchanged; a deleted file is only cleaned |
| `Handles.FlushChanges` | internal/fs/fuse_mount.go:1660-1692 | after a successful upload nothing of the handle is dirty and its buffer is the new base; a failure changes nothing, and only an unwritable handle stays dirty |
| `Handles.RemoteFuseFile.Release` | internal/fs/fuse_mount.go:1598-1607 | flushes once, unregisters, and does nothing the second time |
| `Handles.RemoteFuseFile.RefreshAfterPathTruncate` | internal/fs/fuse_mount.go:1615-1625 | only the version of a live handle opened with truncation changes |
| `Handles.RefreshChanges` | internal/fs/fuse_mount.go:1615-1625 | the version changes, and nothing else, on a live writable handle of the path that was opened with truncation |
| `Handles.RemoteFuseFile.Retarget` | internal/fs/fuse_mount.go:1704-1719 | the path and, if known, the version of the renamed file and of files below it |
| `Handles.RemoteFuseFile.MarkDeleted` | internal/fs/fuse_mount.go:1721-1727 | marks the path and what lies below it |
| `RemotePaths.UnderMeansBelow` | internal/fs/webdavfs.go:437-442 | the prefix test on strings is the order of paths by whole components, the root and trailing slashes included |
| `RemotePaths.RenamedMeans` | internal/fs/fuse_mount.go:1704-1719 | everything at and below the source goes to the same place below the target, iff neither or both are the root; every other path stays |
| `RemotePaths.RenamedFiles` | internal/fs/fuse_mount.go:1145-1159 | what was in the source is at the same place in the target, and apart from the target everything else is as it was |
| `RemotePaths.RetargetMeans` | internal/fs/fuse_mount.go:1704-1719 | exactly the handles of the renamed subtree move, and take over a known version |
| `RemotePaths.MarkDeletedMeans` | internal/fs/fuse_mount.go:1721-1727 | exactly the handles of the removed subtree are marked |
| `RemotePaths.PrefixIsForgotten` | internal/fs/fuse_cache.go:119-130 | after an invalidation the cache knows nothing of the subtree and what it knew of every other path |
| `Handles.OpenKeepsCoherence` | internal/fs/fuse_mount.go:920-982 | a fresh handle differs from the content it was opened on only inside its dirty ranges |
| `Handles.WriteKeepsCoherence` | internal/fs/fuse_mount.go:1563-1584 | every write keeps that: below the base size the buffer differs from the base only inside the dirty ranges, and is never shorter |
| `Handles.SetattrKeepsCoherence` | internal/fs/fuse_mount.go:1627-1651 | so does every change of size or mode |
| `Handles.CoherentUploadTracks` | internal/fs/fuse_mount.go:1660-1692 | what a coherent handle uploads is a whole write, or ranges that track its base |
| `Handles.FlushCommitsBuffer` | internal/fs/fuse_mount.go:1660-1702 | a successful flush leaves the remote equal to the buffer, by patch or by whole write, and the handle coherent with it |
| `Handles.WriteLimit` | internal/fs/fuse_mount.go:1569-1577 | the size limit is never reported; a write fails by overflow exactly when its end does not fit in 64 bits |
| `Steps.OpenHappens` | internal/fs/fuse_mount.go:920-982 | every open of a file that is there is possible, so the results about opens are about every one |
| `Steps.ReadIsCached` | internal/fs/fuse_mount.go:282-292 | after a read the cache has the bytes that were read, under a version that the file meets |
| `Steps.CreateGives` | internal/fs/fuse_mount.go:827-918 | when a create succeeds; the file is then there and empty with a new clean handle on it, and after a failure there is no handle |
| `Steps.UnlinkGives` | internal/fs/fuse_mount.go:984-1021 | one file goes, the cache forgets the subtree, the handles in it are marked, and nothing else changes |
| `Steps.RenameGives` | internal/fs/fuse_mount.go:1145-1159 | the cache forgets both subtrees, the handles of the source move, and no other handle changes |
| `Steps.RenameHappens` | internal/fs/fuse_mount.go:1145-1159 | what the service is taken to do in a rename is possible whenever there is something to rename |
| `Steps.TruncateGives` | internal/fs/fuse_mount.go:1161-1283 | a truncation by path leaves the bytes as far as they go and zeros after them, and exactly the eligible handles get its version; a failure changes no handle |
| `Steps.OtherHandlesStay` | internal/fs/fuse_mount.go:920-1692 | a step about one handle leaves every other one alone; a released handle is gone whatever became of its flush |
| `Steps.ReplayGives` | internal/fs/fuse_writeback.go:75-102 | an entry goes exactly if its replay succeeded to the end; no handle and no other entry changes |
| `Protocol.UploadKeeps` | internal/fs/fuse_mount.go:333-398 | an atomic upload with a known base replaces exactly the content the base names, and names what it stored |
| `Protocol.StoreKeeps` | internal/fs/fuse_writeback.go:58-73 | the same through the journal and the cache |
| `Protocol.FlushKeeps` | internal/fs/fuse_mount.go:1660-1692 | a flush turns exactly the content the handle had seen into exactly its buffer |
| `Protocol.OpenKeeps` | internal/fs/fuse_mount.go:920-982 | opening keeps the invariant; beside a dirty handle it is free for reading, and for writing if that buffer is empty or unchanged |
| `Protocol.OpenGives` | internal/fs/fuse_mount.go:920-982 | a new handle beside the others; without truncation it is clean and has the bytes and the version of the newest live dirty handle on the path, or those of the remote file if there is none |
| `Protocol.RenameKeeps` | internal/fs/fuse_mount.go:1065-1159 | renaming a file or a directory keeps the invariant when every handle at or below it is up to date before and after |
| `Protocol.TruncateKeeps` | internal/fs/fuse_mount.go:1161-1283 | truncating a path keeps the invariant when a refreshed handle uploads everything, has an empty base, or is up to date and keeps its size |
| `Protocol.ReplayKeeps` | internal/fs/fuse_writeback.go:75-102 | replaying an entry of an earlier mount keeps the invariant |
| `Protocol.StepKeeps` | internal/fs/fuse_mount.go:827-1283 | every step of the mount and of other writers keeps the invariant |
| `Protocol.RunKeepsInvariant` | internal/fs/fuse_mount.go:827-1283 | so does every run, of any length and interleaving |
| `Protocol.RunsLoseNoUpdate` | internal/fs/fuse_mount.go:333-398 | no lost update, with nobody writing from the check of an upload to its last stat: in every run each change with a known base, direct, patched or replayed, replaced exactly what that base names, or rewrote its own bytes after a patch whose success could not be confirmed |
| `Protocol.RunsCommitBuffers` | internal/fs/fuse_mount.go:1586-1692 | in every run a flush or a release that uploads and succeeds turns what the handle had seen into its buffer |
| `Protocol.RunsReadRemoteContent` | internal/fs/fuse_mount.go:920-982 | in every run with uploads as single steps, an opened file has the buffer of the newest dirty handle on it, or else its remote content, from the cache or not |
| `Premises.FlushExact` | internal/fs/fuse_mount.go:1660-1692 | for any handle, store, disk and service: a successful undisturbed flush commits the buffer iff it did not go as a patch, or the buffer agreed with the remote outside the parts sent |
| `Premises.WholeFlushCommits` | internal/fs/fuse_mount.go:333-352 | in particular a flush that is not patched commits any buffer |
| `Premises.PatchedFlushExact` | internal/fs/fuse_mount.go:354-381 | for a handle whose version names what it has seen, a patch commits the buffer iff the buffer is what it has seen outside the parts sent |
| `Premises.StatAfterPatchIff` | internal/fs/fuse_mount.go:357-381 | with nobody before the patch, a patched flush ends with the version the file has, and commits the buffer iff nobody wrote other content before the stat |
| `Premises.ForeignWriteIsAdopted` | internal/fs/fuse_mount.go:357-381 | such a write is taken for the own: clean under their version, the wrong bytes in the cache, and their content replaced by a flush after a change of size |
| `Premises.WriteBeforeStatIsMistaken` | internal/fs/fuse_mount.go:357-381 | an input where that happens |
| `Premises.InheritedIsCoherentIff` | internal/fs/fuse_mount.go:970-972 | a handle that inherits a buffer is coherent with what its version names iff the buffer is empty or is that content |
| `Premises.InheritedBufferIsLost` | internal/fs/fuse_mount.go:970-972 | an input: a handle opened from a dirty one commits a file that is neither its buffer nor the old content |
| `Premises.RefreshedHandleLosesBytes` | internal/fs/fuse_mount.go:1615-1625 | an input: a refreshed handle keeps its base size and its next flush loses bytes |
| `Premises.RefreshedCleanIff` | internal/fs/fuse_mount.go:1615-1625 | a clean handle is coherent after the refresh iff its base is empty or its buffer is the truncated content |
| `Premises.RefreshedIff` | internal/fs/fuse_mount.go:1615-1625 | any handle coherent with the content that is truncated stays coherent iff it uploads everything, has an empty base, or keeps its size |
| `Premises.RenamedHandleIff` | internal/fs/fuse_mount.go:1704-1719 | a handle that takes the revision of its moved file names what it has seen iff it had seen what the file held; with distinct contents iff it was up to date |
| `Premises.RenamedStaleHandleOverwrites` | internal/fs/fuse_mount.go:1716-1718 | an input: after a rename a stale handle replaces newer content; without the rename it is refused |
| `Premises.BelowRenamedDirectory` | internal/fs/fuse_mount.go:1704-1719 | a handle below a renamed directory is refused iff the file's revision differs from the directory's |
| `Premises.NextCheckPassesIff` | internal/fs/fuse_version.go:37-52 | after a whole write the handle's own next check passes iff the reply carried the stored revision and no two resource identifiers disagree |
| `Premises.UnreportedRevisionBlocksNextFlush` | internal/fs/fuse_version.go:47-52 | a reply without a revision makes the handle's own next flush a conflict |
| `Drain.DrainOpenHandles` | internal/fs/fuse_mount_control.go:213-227 | flushes the handles one after the other, in whatever order; at the deadline or at a failure it stops, with the handles before flushed and those after untouched |
| `Drain.FlushesEndExactly` | internal/fs/fuse_mount_control.go:213-227 | the flushes succeed iff there is time for each and each succeeds; the deadline stops them iff it comes before the first failure; else the failure reported is the first |
| `Drain.FlushesLeave` | internal/fs/fuse_mount_control.go:213-227 | every handle up to where they ended is what its flush made of it, every other one is as it was, and the world is that after exactly these flushes |
| `Drain.SnapshotPending` | internal/fs/fuse_mount_control.go:229-245 | the exact numbers of open handles, dirty handles and entries of this mount, and their bytes |
| `Drain.DrainMount` | internal/fs/fuse_mount_control.go:163-211 | what each kind of failure means; without one every handle was flushed, every entry replayed once, and nothing is dirty or journalled; with a dirty handle that is not writable there is always one |
| `Drain.DrainSucceedsIff` | internal/fs/fuse_mount_control.go:163-211 | no failure is reported iff there was time, every flush and every replay succeeded, and no handle is dirty afterwards; nothing is journalled then |
| `DrainEnd.DrainEndsWithBuffers` | internal/fs/fuse_mount_control.go:163-211 | at the end of a drain without failure the remote holds a dirty buffer iff it went through the pending store, or no older write of its path was pending, or that had the same bytes |
| `DrainEnd.StoppedRecoveryKeeps` | internal/fs/fuse_writeback.go:75-102 | a recovery that stops loses no entry: each is still journalled unchanged or was uploaded successfully |
| `DrainEnd.OlderEntryOverwrites` | internal/fs/fuse_writeback.go:62-102 | an input: an older entry without a base is replayed over a large buffer just flushed, and the drain reports no failure |
| `DrainEnd.LostCreateLeavesEntry` | internal/fs/fuse_writeback.go:58-73 | such an entry is left by a create whose reply was lost |
| `DrainEnd.FlushesCommit` | internal/fs/fuse_mount_control.go:213-227 | after successful flushes, in whatever order, the remote holds the bytes of every dirty undeleted handle under new revisions |
| `DrainEnd.SecondFlushConflicts` | internal/fs/fuse_mount.go:383-398 | where revisions change on every write, the second of two dirty handles on one path conflicts, and the drain fails |
| `DrainEnd.DrainedPathsDiffer` | internal/fs/fuse_mount_control.go:213-227 | so no two handles that a successful drain uploads share a path |
| `DrainEnd.PendingLeft` | internal/fs/fuse_writeback.go:58-73 | successful flushes take away exactly the entries of the paths they flushed through the store |
| `DrainEnd.ReplayedContent` | internal/fs/fuse_writeback.go:75-102 | after successful replays a path has the bytes of its entry, and is as it was if it had none |
| `DrainEnd.FlushFrame` | internal/fs/fuse_mount.go:1660-1692 | a flush touches only its own path and its own entry |
| `DrainEnd.FlushedEntryGone` | internal/fs/fuse_writeback.go:58-73 | after a successful flush an entry is left iff the buffer was too large and an older entry was there |
| `Drain.ReadOnlyDirtyHandleStays` | internal/fs/fuse_mount.go:1660-1666 | only a handle that is not writable stays dirty through successful flushes, and it always does |
| `Drain.ModeChangeMakesOne` | internal/fs/fuse_mount.go:1642-1646 | a change of mode through a handle opened for reading makes such a handle |
| `Pagination.PageFingerprint` | internal/db/pagination.go:103-110 | digests the identifiers in order, each ended by a zero byte |
| `Pagination.FingerprintIdentifiesIds` | internal/db/pagination.go:103-110 | equal fingerprints iff equal identifiers in equal order, when no identifier has a zero byte |
| `Pagination.ZeroByteConfusesFingerprints` | internal/db/pagination.go:103-110 | with a zero byte two different pages share a fingerprint |
| `Pagination.FingerprintIsUniqueIff` | internal/db/pagination.go:103-110 | among all pages, one is known by its fingerprint iff it lists at most one identifier and that has no zero byte |
| `Pagination.ListClusters` | internal/db/dispatcher.go:73-140 | the loop equals the recursive specification that the results below are about, errors included, wherever calls end at all |
| `Pagination.TokensAccepted` | internal/db/pagination.go:60-93 | which tokens are accepted, in numbers, and with which error the others are refused |
| `Pagination.EveryCallEndsIff` | internal/db/dispatcher.go:92-139 | every call, from whatever cursor, ends iff every chain of empty upstream pages does, which is what the premise of the loop says |
| `Pagination.EmittedCursorDecodes` | internal/db/pagination.go:60-101 | an emitted cursor decodes to itself iff it is within the length limit, and is refused in any other context |
| `Pagination.ChangedPageIsRefused` | internal/db/dispatcher.go:107-114 | the next call refuses the token iff the identifiers of the saved page changed |
| `Pagination.CallConserves` | internal/db/dispatcher.go:92-139 | what a call returns, followed by what its token still has to deliver, is exactly what was due; with a token the page is full |
| `Pagination.EmittedCursorIsWellFormed` | internal/db/dispatcher.go:92-139 | every emitted token, after any token fed in and over any upstream list, holds a position strictly inside its page with its fingerprint, or the start of a page without one |
| `Pagination.CutInsidePage` | internal/db/dispatcher.go:116-124 | over a complete list, a call that ends inside a page resumes right after what was taken, with nothing lost |
| `Pagination.RunDeliversTheList` | internal/db/dispatcher.go:73-140 | over whole runs with arbitrary page sizes: no gap, no duplicate, no reordering; every page that is not the last has exactly the number of clusters asked for, 10 by default; a run that ends delivered the concatenation of the upstream pages |
| `Pagination.RunsDoNotStall` | internal/db/dispatcher.go:73-140 | over a complete list a call succeeds for exactly the page sizes from 0 to 1000, and another token means that the page has exactly as many clusters as asked for, 10 for 0 |
| `PathStrings.CleanRooted` | internal/fs/pack.go:1183-1204 | cleaning a path of ordinary components changes nothing |
| `PathStrings.NormalizedForm` | internal/fs/data.go:567-588 | a normalized remote path has clean components, no control characters, at most a trailing slash |
| `PathStrings.NormalizedExactly` | internal/fs/data.go:567-588 | which paths are refused, and what the others become |
| `PathStrings.NormalizeIdempotent` | internal/fs/data.go:567-588 | normalizing is idempotent, trailing slash included |
| `PathStrings.CanonicalForm` | internal/fs/pack.go:1183-1204 | no dot segment survives in a canonical archive path |
| `PathStrings.CanonicalExactly` | internal/fs/pack.go:1183-1204 | which archive paths are refused, and what the others become |
| `PathStrings.TrimmedMeans` | internal/fs/pack.go:1183-1184 | trimming takes the white space off both ends and nothing else |
| `PathStrings.SpaceExactly` | internal/fs/pack.go:1183-1184 | white space, by code point |
| `PathStrings.RemotePathRoundTrip` | internal/fs/pack.go:1700-1736 | a canonical control-free archive path comes back from the remote side iff the root has no control characters, for blank roots, "/" and trailing slashes alike |
| `RemotePaths.ToRemoteMeans` | internal/fs/pack.go:1700-1714 | the remote path has the components of the archive path below those of the remote root |
| `RemotePaths.RemoteToLocalMeans` | internal/fs/pack.go:1716-1736 | exactly the paths at and below the remote root come back, to the same place below the archive's root |
| `PackArchive.NestedMeansBelow` | internal/fs/pack.go:1132-1135 | the string prefix test finds exactly the paths below |
| `PackArchive.StringLeqMeans` | internal/fs/pack.go:1074 | the order of names: prefixes first, else by the first character that differs |
| `PackArchive.NormalizePackSources` | internal/fs/pack.go:1118-1146 | keeps exactly the sources without a proper ancestor among them, once each, sorted by name |
| `PackArchive.TopmostCover` | internal/fs/pack.go:1118-1146 | they cover what all sources covered, and no two are nested |
| `PackArchive.CollectPackItems` | internal/fs/pack.go:719-786 | succeeds iff every source can be looked up and everything below can be listed and is of a supported kind; the items are exactly the nodes at and below the sources, each once |
| `PackArchive.CollectNeeds` | internal/fs/pack.go:719-786 | what stops the collection at a node, in kinds and permission bits |
| `PackArchive.SortedParentsFirst` | internal/fs/pack.go:779-784 | the order by slashes and name puts every directory before what is in it |
| `PackArchive.ShallowFirstMeans` | internal/fs/pack.go:779-784 | the order of the entries is by depth, and by name within one depth |
| `PackArchive.PackReplacePaths` | internal/fs/pack.go:1027-1076 | exactly the previous paths, the sources if all is packed, the explicit paths and the named siblings, sorted, whatever the order of the parents |
| `PackArchive.ReplacedExactly` | internal/fs/pack.go:1027-1076 | the paths to replace one by one, in terms of the request and the sources |
| `PackArchive.SortedNamesAncestorsFirst` | internal/fs/pack.go:1074 | sorting by name puts ancestors before what lies below them |
| `PackArchive.InstallPathsCoverSources` | internal/fs/pack.go:1027-1076 | every source is among the paths an unpack replaces |
| `PackTree.PermissionBits` | internal/fs/pack.go:815-846 | which permission bits let a user list, search and change a directory |
| `PackTree.CreatedBits` | internal/fs/pack.go:815-847 | a permission bit survives creation iff it is one of the lowest nine and the umask does not have it |
| `PackTree.EnsureNoSymlinkPath` | internal/fs/pack.go:1294-1334 | the walk refuses the first link on the way and anything below a file |
| `PackTree.CheckMeansPassable` | internal/fs/pack.go:1294-1334 | it passes iff the path is no link and only directories that can be searched lie above |
| `PackTree.CheckReports` | internal/fs/pack.go:1294-1334 | what it reports: a link, a file or a directory that cannot be searched, exactly where the walk gets to one |
| `PackTree.RemovalNeeds` | internal/fs/pack.go:979-997 | which permission bits a removal needs, and that it takes exactly the subtree |
| `PackTree.MoveNeeds` | internal/fs/pack.go:918-932 | which permission bits and which target a move needs, and what the two trees are then |
| `PackExtract.EntryNameRoundTrip` | internal/fs/pack.go:1260-1281 | an entry's name leads back to its location, except that the root and names with a backslash are refused |
| `PackExtract.NamesAccepted` | internal/fs/pack.go:1260-1281 | the names that are accepted are exactly those of portable locations, spelled out |
| `PackExtract.ExtractStep` | internal/fs/pack.go:808-876 | an entry of a packed tree is extracted iff its name and link target are acceptable and every directory on the way can be written; it disturbs nothing restored before |
| `PackExtract.ExtractRestores` | internal/fs/pack.go:441-505 | the same for a whole archive; the stage then holds every packed node, and directories above them with the bits of the first item below |
| `PackExtract.LinkOnTheWayIsRefused` | internal/fs/pack.go:808-876 | no entry is extracted through a link: it is refused for that reason |
| `PackExtract.UnwritableDirectoryBlocks` | internal/fs/pack.go:815-846 | a packed directory that its owner cannot write or search, with anything below it, makes the whole extraction fail |
| `PackExtract.ReadOnlyDirectoryDoesNotExtract` | internal/fs/pack.go:815-846 | an input: a directory with bits 0555 and one file, for an ordinary user |
| `PackExtract.ItemIsRestored` | internal/fs/pack.go:808-876 | because parents come first, every item ends with its own kind, content and permission bits |
| `PackExtract.LateDirectoryIsIgnored` | internal/fs/pack.go:818-825 | why the order matters: a directory entry after something below it is ignored, and its permission bits with it |
| `PackInstall.RemovesCovered` | internal/fs/pack.go:979-997 | removal succeeds iff no link, no file and no permission is in the way, and removes exactly what the paths cover |
| `PackInstall.LinksAreRefused` | internal/fs/pack.go:918-997 | nothing is removed or installed through a link |
| `PackInstall.InstallStep` | internal/fs/pack.go:887-915 | a staged path is moved with all below it iff the way to it can be made and it can be given another parent; one that went with an ancestor is skipped |
| `PackInstall.InstallsStage` | internal/fs/pack.go:878-916 | the install succeeds iff every path to move can be; at and below the paths the overlay is then the stage, elsewhere as before with new directories above |
| `PackUnpack.Unpacker.ExtractPackEntry` | internal/fs/pack.go:808-876 | leaves in the stage exactly what the function behind `ExtractStep` gives, or reports exactly its error |
| `PackUnpack.Unpacker.RemoveManifestPaths` | internal/fs/pack.go:979-997 | leaves exactly what the function behind `RemovesCovered` gives, or reports its first refusal |
| `PackUnpack.Unpacker.MoveStagedPath` | internal/fs/pack.go:918-932 | moves a staged subtree and nothing else, or reports why not, as the function behind `InstallStep` |
| `PackUnpack.Unpacker.MoveStaged` | internal/fs/pack.go:887-915 | leaves exactly what the function behind `InstallsStage` gives, for every list of paths |
| `PackUnpack.Unpacker.ExtractPackArchive` | internal/fs/pack.go:441-505 | the overlay becomes exactly what the function of `PackThenUnpack` says; an entry that is refused leaves the overlay alone |
| `PackUnpack.WritePackArchive` | internal/fs/pack.go:350-409 | succeeds iff the topmost sources can be looked up and all below can be read; an archive of exactly that, with paths to replace that cover it, ancestors first |
| `PackUnpack.PackThenUnpack` | internal/fs/pack.go:350-505 | pack then unpack: succeeds iff names and targets are acceptable, every directory entered can be written, and what is replaced can be removed and installed; then every node under the sources has its kind, bytes or target and permission bits, other replaced content is gone, the rest is untouched |
| `PackUnpack.UnpackedContent` | internal/fs/pack.go:350-505 | after it, at and below the sources: the bytes of every file, the target of every link, and the lowest nine permission bits less the umask, of exactly the nodes packed |
| `PackUnpack.UnpackedElsewhere` | internal/fs/pack.go:350-505 | and elsewhere: replaced places are empty but for directories above the sources, the rest is as it was, new directories have 0755 less the umask |
| `PackUnpack.OrdinaryPackThenUnpack` | internal/fs/pack.go:350-505 | where every directory concerned can be listed, searched and written, it succeeds iff names and targets are acceptable and no link or file stands above what is replaced |
| `PackUnpack.PrivilegedPackThenUnpack` | internal/fs/pack.go:350-505 | so it does for a privileged user, whatever the permission bits |
| `PackUnpack.UnwritableSourceIsNotMoved` | internal/fs/pack.go:918-932 | a packed directory that its owner cannot write, even an empty one, is not moved out of the stage |
| `PackUnpack.EmptyReadOnlyDirectoryDoesNotInstall` | internal/fs/pack.go:918-932 | an input: an empty directory with bits 0555 is extracted, and then the install fails for an ordinary user |
| `PackUnpack.UnpackOverItself` | internal/fs/pack.go:350-505 | unpacking over the overlay the archive was made from is the identity when the permission bits survive |
| `OverlayAudit.ResolveOverlayTargetLive` | internal/fs/pack.go:1512-1564 | terminates on every file system, link cycles included, with no link above the current location |
| `OverlayAudit.LiveAgreesWithPosix` | internal/fs/pack.go:1512-1564 | when the resolution of section 4.13 of the Base Definitions volume of IEEE Std 1003.1-2017 succeeds within the hop bound, the resolver reaches the same location and reports whether a changed path was looked up |
| `OverlayAudit.ResolverAgreesWithPosix` | internal/fs/pack.go:1512-1564 | the same for a whole relative link |
| `OverlayAudit.ChainResolvesIff` | internal/fs/pack.go:1540-1557 | a chain of links is followed iff it has at most 32 |
| `OverlayAudit.LexicalAgreesWithPosix` | internal/fs/pack.go:1371-1374 | where resolution meets no link, following the components without looking gives the same location, dot-dot included |
| `OverlayAudit.AllowedMeansResolvesInside` | internal/fs/pack.go:1361-1375 | so such a target is allowed iff it is a relative path without zero characters and backslashes that resolves to the root or below it |
| `OverlayAudit.CleanKeepsMeaning` | internal/fs/pack.go:1183-1204 | and cleaning a path does not change what it names |
| `OverlayAudit.AbsoluteTargetIsMisplaced` | internal/fs/pack.go:1512-1564 | for an absolute target it would look in the directory of the link; the audit rejects such targets before it resolves |
| `OverlayAudit.TaintMeans` | internal/fs/pack.go:1512-1564 | a resolution that ends is tainted iff it looked up a changed path that exists |
| `OverlayAudit.AttributionExact` | internal/fs/pack.go:1566-1571 | the attribution meets its description iff the link changed itself, or its resolution ends and met a changed path that still exists |
| `OverlayAudit.SelfLinkLoops` | internal/fs/pack.go:1542-1557 | a link to itself uses up the hops and is reported, not followed for ever |
| `OverlayAudit.LinkToNewCycleStays` | internal/fs/pack.go:1590-1615 | an unchanged link to a newly installed link that points to itself is not removed, although it cannot be resolved |
| `OverlayAudit.ChangedOverlayPaths` | internal/fs/pack.go:1466-1481 | exactly the paths that are new, gone or recorded differently, whatever the order of the maps |
| `OverlayAudit.ScanExactly` | internal/fs/pack.go:1410-1461 | what a scan records and how, and that it is complete iff no directory of the overlay is unreadable |
| `OverlayAudit.Overlay.IsUnsafe` | internal/fs/pack.go:1590-1626 | a link is unsafe iff it escapes and the run is responsible for it |
| `OverlayAudit.Overlay.UnsafeAmong` | internal/fs/pack.go:1590-1626 | the links to remove are decided on the file system as it is, in any order |
| `OverlayAudit.Overlay.Audit` | internal/fs/pack.go:1572-1645 | removes exactly the unsafe links it can remove and nothing else; passes iff there was none and the scan was complete |
| `GitView.GitReaddir` | internal/fs/fuse_git.go:101-165 | for every order of the maps, the names listed are those of the function that `ListedMeans` characterizes |
| `GitView.ListedMeans` | internal/fs/fuse_git.go:101-165 | a name is listed iff the child resolves, for every order of the maps, outside the one bad case |
| `GitView.ChildResolves` | internal/fs/fuse_git.go:49-84 | when a child of a directory resolves, by whiteouts, upserts, tree nodes and nested roots |
| `GitView.DisagreesInSomeOrder` | internal/fs/fuse_git.go:117-147 | in the bad case some order of the overlay makes listing and resolution disagree |
| `GitView.ListingAgreesWithResolution` | internal/fs/fuse_git.go:49-165 | agreement for every order iff the child is not whiteouted over an upsert below it or over another workspace's root |
| `AppendPatch.AppendByPatch` | internal/fs/data.go:206-239 | on success every part was filled at the running offset, and the offset ended at the size of the local file |
| `AppendPatch.FillPartMeans` | internal/fs/data.go:206-226 | what one callback returns byte by byte, and when it fails |
| `AppendPatch.AppendRefinesRewrite` | internal/fs/data.go:206-259 | in plan order no callback fails and the file is the one the rewrite would have written |
| `AppendPatch.PatchRefinesRewrite` | internal/fs/data.go:206-259 | in plan order every part has the bytes of the rewrite and the offset ends at the size of the local file |
| `AppendPatch.WantedPartsMakeTheFile` | internal/fs/data.go:242-259 | such parts after the untouched front make up the rewritten file |
| `AppendPatch.TotalNeed` | internal/fs/data.go:206-233 | the final offset does not depend on the order of the callbacks |
| `AppendPatch.WrongOrder` | internal/api/fs/upload.go:883-924 | two neighbouring parts that need local bytes get each other's when the second runs first |
| `AppendPatch.OrderIsHarmlessIff` | internal/api/fs/upload.go:883-924 | right for every order that can occur and every file iff at most one part needs local bytes |

## Left out

- Protocol.RunsLoseNoUpdate: an upload is one atomic step of the runs; what happens between the check and the write is `Upload.UploadReplacesCheckedIff`, between a patch and its stat `Premises.StatAfterPatchIff`.
- Protocol.RunKeepsInvariant: contents are named by path and revision; that resource identifiers would tell re-created files with equal revisions apart is left out of the runs.
- PackUnpack.WritePackArchive: a source whose last name ends in white space; the program trims archive paths, so nobody can ask for such a source, and a discovered one is packed under the trimmed name.
- Protocol.RenameKeeps: the rename and the stat of the target that follows it are one step.
- Pagination.ListClusters: asks that every chain of empty upstream pages ends; without that some call does not end (`Pagination.EveryCallEndsIff`).
- PackArchive.CollectPackItems: a source that is reached through a symbolic link inside the overlay is excluded; the operating system would follow the link.
- PackUnpack.PackThenUnpack: modification times are left out, and the directories around the overlay and the stage are taken to be writable.
- OverlayAudit.ResolveOverlayTargetLive: a case-sensitive file system with a canonical overlay root; the second pass that canonicalizes names is left out.
- AppendPatch.AppendByPatch: the callbacks run one at a time in some order; two callbacks inside the unsynchronized update of the offset at once are left out.
- Unpacking without replacement (merging a stage into an overlay) and discovering the sources of a mount profile.
- Crashes between the two files of a journal entry, and damaged journal files beyond a size that does not match.
- Handles of files in Git workspaces, which commit through their own callback; Git directory renames, removals and entry kinds.
- Upload sessions, checksums, retries and presigned requests of the remote client; its operations appear by what they do to the stored file.
- Locks, timers, sockets, inode attributes and error numbers of the FUSE layer; the clock appears as a number given to the cache.
- Local-only paths, layers, vault, journal, WebDAV, authorization, configuration and the command line, which hold tables and delegation.
