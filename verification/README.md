# ploop: images, snapshots, balloon and copy

ploop keeps a virtual disk as a stack of delta images. A delta is a file: a 64-byte header, an index (one 32-bit entry
for each virtual cluster, 0 for "look in the delta below") and data clusters. This project models how the library
rewrites such files in place, how snapshots form a tree of deltas, how the balloon finds clusters to give back, and how
a running image is copied; and it proves what these operations promise.

- **Images** (`Image`, `Stack`, `Disk`, `DeltaFile`, `Geometry`): the layout, the invariant `Image.Valid` (entries
  aligned, inside the file past the index, pairwise distinct, zero behind the last cluster), what a delta and a stack
  read, and a disk that loses power: durable contents, the writes since the last fsync, and every state `Disk.Possible`
  after a crash. Words survive independently of each other, clusters past the durable end of the file may hold anything;
  the header and a single index entry are written atomically.
- **Transformations** (`Grow`, `GrowOffline`, `Merge`, `MergeImage`, `MergeOffline`, `RawImage`, `RawMerge`,
  `Preallocate`, `Convert`, `Restore`, `FmtProtocol`, `FmtSteps`, `FmtBase`, `FmtMarks`, `FmtEnds`, `Check`): each is an
  imperative method over a file and a cache of one index cluster, proved against what the device reads before and
  after, and at every crash.
- **Snapshots** (`SnapshotTree`, `Tables`, `Descriptor`, `SnapshotOps`, `SnapshotEdits`, `MergeSnapshot`, `RawTree`,
  `DeltaTree`, `OfflineSnapshots`, `TempSnapshots`): the descriptor as a class whose arrays are edited in place, its
  meaning as a tree, and what every surviving snapshot reads, image files included.
- **Balloon** (`Extents`, `Fiemap`, `RangeBuild`): reverse maps, extents, splitting, and the counting argument that
  makes cutting the tail possible.
- **Copy and dirty bitmaps** (`FlagHandoff`, `CondHandoff`, `LiveCopy`, `Bitmap`, `Cbt`): two hand-off protocols between
  a reading and a sending thread and the copy against the write tracker, as state machines over all interleavings; bit
  scans and the conversion between bitmaps and extents.
- `Runs` has reachability and invariants of state machines, `Wrappers` an option type.

`dafny verify dfyconfig.toml` checks everything.

## Model

| member | source | states |
|---|---|---|
| Geometry.IndexHoldsAllSlots | include/ploop1_image.h:384-420 | the index of a generated header ends with a cluster, the size is the asked one rounded up to clusters, and the index has room for every slot exactly if its byte count, rounded to clusters, stays below 2^32; then no shorter index would do |
| Geometry.FirstBlockAligned | include/ploop1_image.h:384-420 | for every size, 32-bit wrap-around included, the first block offset is a whole number of clusters, as the check demands (lib/check.c:465) |
| Image.BlockOfEnc | lib/ploop.h:205-219 | an entry made from a cluster number that fits in 32 bits gives the number back, is aligned, and is zero for cluster 0 only |
| Image.EncBlockOf | lib/ploop.h:221-233 | an aligned entry is the entry of the cluster it names |
| Image.SameIndexValid | lib/delta_read.c:98-172 | a file at least as long with the same header shape and index is a valid image if the other is |
| DeltaFile.Delta.ChangeState | lib/delta_read.c:207-241 | the in-use mark changes and nothing else, and is durable on return |
| Disk.SyncedCrash | include/ploop1_image.h:33-37 | with nothing pending a crash loses nothing |
| Disk.Untouched | include/ploop1_image.h:33-37 | a cluster no pending write touches keeps its durable contents in every crash |
| Grow.FindSlot | lib/delta_read.c:319-345 | finds the first slot with the wanted entry, or stops at the first slot outside the index |
| Grow.RelocateBlock | lib/delta_read.c:307-381 | the cluster is copied to the end of the file and synced before its entry is redirected; result 0 means no slot refers to it |
| Grow.RedirectCrash | lib/delta_read.c:346-381 | while the redirected entry is pending, a crash leaves a valid image that shows the old device |
| Grow.FreeCluster | lib/delta_read.c:443-472 | frees and zeroes one cluster under the new index, and every crash on the way shows the old device |
| Grow.ClearRegion | lib/delta_read.c:424-472 | the space of the new index ends up zero and unused, and every crash on the way shows the old device |
| Grow.HeaderCrash | lib/delta_read.c:474-494 | while the header is pending, a crash shows the old device under the old header, or under the new one followed by holes |
| Grow.GrowDelta | lib/delta_read.c:389-502 | refuses a used cache; otherwise a valid image under the new header that shows the old device followed by holes, at every crash too |
| GrowOffline.GrowDeltaOffline | lib/delta_read.c:593-663 | the exact error conditions; every crash leaves a valid image that shows the old device under whichever header is on the disk, and whose clusters are the old or the final ones unless it has the in-use mark; success leaves a clean, durable device of exactly the new size with the shortest index, a first block offset in whole clusters and no more clusters than needed; nothing is done if the size is the same |
| GrowOffline.GrowsAgain | lib/delta_read.c:593-663 | whatever an interrupted grow left can be grown again and still shows the old device |
| GrowOffline.EmptyMarkOf | lib/delta_read.c:487-488 | for a given file the test for an image without data is right exactly if the file is the index and clusters have 512 sectors or more, or the file is longer and its clusters times 512 exceed the index in sectors |
| GrowOffline.EmptyMarkExact | lib/delta_read.c:487-488 | for a valid blocksize it is right for all file lengths with an index below 2^32 bytes exactly if a cluster has 512 sectors |
| Stack.LocateIsStackRead | lib/merge.c:79-99 | with sizes that do not increase downwards, the search with its early stop finds exactly the delta the stack reads from |
| MergeImage.DeltaArray.LocateL2Entry | lib/merge.c:79-99 | the search through lazily loaded caches gives what the search through the deltas gives |
| Merge.StoreReads | lib/merge.c:541-563 | storing a cluster keeps the image valid and changes what exactly that cluster reads |
| Merge.TableCrash | lib/merge.c:48-66 | while an index cluster is pending over durable data, every crash leaves a valid image |
| Merge.KeptSafe | lib/merge.c:37-77 | what is on the disk and pending during a merge leaves only crashes with a valid lower delta and a stack that reads as before |
| MergeImage.SyncCache | lib/merge.c:37-77 | data is durable before the cached index cluster is written, nothing else changes, and every crash is safe |
| MergeImage.StoreCached | lib/merge.c:525-563 | stores one cluster through the write-back cache, allocating at the end of the file, and every crash is safe |
| MergeOffline.MergeLoop | lib/merge.c:472-565 | after the loop every cluster reads what the stack read, partial last table included, and every crash on the way was safe |
| MergeOffline.MergeImageOffline | lib/merge.c:282-667 | fails exactly for deltas in use or of different format, with the code of the first that fails; every crash leaves a stack that reads as before and a lower delta that opens, whose clusters are the old or the final ones unless it has the in-use mark; at the end the lower delta alone reads what the whole stack read, with the shortest index and a first block offset in whole clusters |
| MergeOffline.MergesAgain | lib/merge.c:282-667 | whatever an interrupted merge left can be merged into again, and the stack still reads as at first |
| RawMerge.GrowRaw | lib/delta_read.c:504-567 | appends exactly that many zeros and changes nothing a stack shows |
| RawMerge.MergeIntoRaw | lib/merge.c:415-611 | into a raw base: fails exactly for deltas in use or of different format; every crash leaves a stack that reads as before; at the end the file alone reads word for word what the stack read, and has as many sectors as the topmost delta, or as before if those were more |
| RawImage.Expanded2Raw | lib/ploop.c:3273-3347 | succeeds exactly if no cluster of the image is broken, and then the new file is the device, cluster by cluster, all of it durable |
| Preallocate.PreallocateImage | lib/ploop.c:3349-3420 | every cluster gets a block, those without one read as zeros, the others as before and at every crash too; crashes leave the device as it was exactly if no cluster was missing |
| Preallocate.TornFill | lib/ploop.c:3377-3408 | the crash that breaks a cluster: its entry is on the disk, its block is not |
| Preallocate.HidesBelow | lib/ploop.c:3349-3420 | over other deltas the conversion shows the same exactly if they have zeros wherever the delta had nothing |
| Preallocate.HidesOne | lib/ploop.c:3349-3420 | a delta, what the conversion makes of it and a delta below for which it shows something else |
| Convert.EntryExact | lib/ploop.c:3545-3563 | a rewritten entry names the same sector exactly if it is zero, or version 1 was a multiple of the blocksize |
| Convert.EntryAllowedExact | lib/ploop.c:3553-3557 | an entry is refused exactly if version 1 is wanted and no entry of version 1 names its sector |
| Convert.ConvertedReads | lib/ploop.c:3526-3571 | the converted image is valid and every cluster reads as before |
| Convert.WritebackIdx | lib/ploop.c:3512-3524 | the cached index cluster is in the file, the header is spared, a crash leaves all data clusters |
| Convert.ChangeFmtVersion | lib/ploop.c:3526-3571 | succeeds exactly if every entry passes the size check; then each entry is the old one in the new version and all is durable; otherwise, and at every crash, data clusters and the rest of the header are intact |
| Restore.DoRestore | lib/ploop.c:3698-3748 | refuses exactly a different shape; otherwise header and index are the saved ones; a crash leaves all data clusters |
| Restore.IntactReads | lib/ploop.c:3698-3748 | a delta with the saved header and index over its data reads what the original read |
| FmtProtocol.CompletedIsConsistent | lib/ploop.c:3573-3696 | with the base as the first image, after any crashes, also during recovery, a completed run leaves all deltas at one version and every cluster reading as before |
| FmtProtocol.RecoverKeeps | lib/ploop.c:3750-3840 | recovery keeps what it relies on in every step and never gives up |
| FmtProtocol.StopSafe | lib/ploop.c:3602-3696 | with the base as the first image, in every state between two steps of the conversion, while the base is marked each delta is untouched or can be restored, and when it is not all deltas agree; nothing is said of marks on other deltas |
| FmtBase.RecoverCompletes | lib/ploop.c:3797-3840 | recovery that is not interrupted completes with the contents of every delta as they were |
| FmtBase.WrongBase | lib/ploop.c:3640-3690 | a run that ends with two versions in the stack when the base is not the first image |
| FmtBase.BaseMustComeFirst | lib/ploop.c:3573-3840 | every completed run is consistent exactly if the base is the first image |
| FmtMarks.RecoveryLeaves | lib/ploop.c:3797-3840 | what uninterrupted recovery leaves: with the base marked, every marked delta unmarked and not in use and all others untouched; otherwise everything untouched |
| FmtMarks.RecoveryEnds | lib/ploop.c:3797-3840 | and it does end |
| FmtMarks.NothingPutInUse | lib/ploop.c:3729-3732 | no step of recovery, and no crash in one, puts a delta in use that was not |
| FmtMarks.CleanExact | lib/ploop.c:3750-3840 | afterwards no delta is marked or in use exactly if, with the base marked, no unmarked delta was in use, and, with the base unmarked, no delta was marked or in use |
| FmtMarks.RefusedExact | lib/check.c:493-498 | afterwards some delta is marked and in use, which the check refuses, exactly if the base was unmarked and there was such a delta before |
| FmtMarks.CrashRefusedExact | lib/ploop.c:3667-3680 | with the base as the first image, a crash between two steps of the conversion leads there exactly if the first image was unmarked and another was not |
| FmtMarks.RefusedAfterCrash | lib/ploop.c:3667-3680 | every conversion of two deltas or more passes such a state: a run with right contents and a delta that is refused |
| FmtEnds.FlagsKept | lib/ploop.c:3573-3840 | with the base as the first image, after any crashes and recoveries the flags of every delta are what they were, but for the conversion mark |
| FmtEnds.FinishedIsConverted | lib/ploop.c:3573-3696 | a finished conversion, whatever came before it, leaves every delta in the new version, reading as before, with its old flags, not in use and without a backup |
| FmtEnds.FinishesExact | lib/ploop.c:3573-3696 | a conversion that is not interrupted can finish exactly if every entry of every delta passes the size check |
| FmtSteps.Rewrite | lib/ploop.c:3526-3571 | rewriting a delta is the protocol's step, succeeds exactly if every entry passes the size check, and each of its crashes is one the protocol allows |
| FmtSteps.RestoreFromBackup | lib/ploop.c:3698-3748 | restoring a delta is the protocol's step, and each of its crashes one the protocol allows |
| FmtSteps.SetField | lib/ploop.c:3640-3690 | so is writing a mark or the in-use field, up to file length |
| Check.CheckDesc.CheckOneSlot | lib/check.c:149-187 | exactly what one slot does to bitmap, allocation head, flags and index |
| Check.CheckedStep | lib/check.c:149-187 | one more slot: fatality, cleared slots, used clusters and highest cluster are those of the scanned slots |
| Check.CheckDesc.ScanIndex | lib/check.c:539-568 | after the scan the results are those of all slots of the index as it was |
| Check.ExcessExact | lib/check.c:156 | without wrapping, the slots cleared as past the device are exactly those after the first one past it |
| Check.CheckReads | lib/check.c:585-604 | clearing those slots and trimming the file changes no readable cluster |
| Check.ScanSurvives | lib/check.c:149-187 | after a scan without fatal errors the slots still set are aligned, past the index, inside the file, and pairwise distinct |
| Check.PloopCheck | lib/check.c:385-656 | the verdict, in terms of the image and the flags given: skipped, in the middle of a conversion exactly if in use and marked, fatal exactly if some slot is wrong, in use, unclean, read-only or fine; a read-only check changes nothing; otherwise the image has exactly the slots past the device cleared, the unused tail cut off, and the header as the verdict says; a detailed check that is not fatal leaves surviving slots in order and every cluster reading as before |
| Check.PassedIsValid | lib/check.c:385-656 | such an image with nothing set past the device is valid |
| Descriptor.DiskDescriptor.FindSnapshotByGuid | lib/di.c:431-441 | the first entry with the guid, or -1 if there is none |
| Descriptor.DiskDescriptor.GetChildCountByUuid | lib/di.c:476-484 | how many entries name the guid as parent |
| Descriptor.DiskDescriptor.GetChildByUuid | lib/di.c:451-462 | the first child, and none exactly if nobody names the guid as parent |
| Descriptor.DiskDescriptor.ChangeGuid | lib/di.c:235-251 | the new state, also when the argument points into the array that is edited |
| Descriptor.DiskDescriptor.AddImage | lib/di.c:206-233 | the new state: image and snapshot appended, and the new snapshot is the top |
| Descriptor.DiskDescriptor.RemoveImage | lib/di.c:486-541 | the exact conditions for removal, and the new state |
| Descriptor.DiskDescriptor.MergeImage | lib/di.c:543-611 | the exact conditions for merging, and the new state |
| Descriptor.DiskDescriptor.MakeImagesList | lib/ploop.c:122-186 | the files along the parents, in either order; none exactly if an entry is missing or the walk is too long |
| SnapshotOps.ChainReads | lib/ploop.c:122-186 | on a tree the list exists exactly for known guids, and opening it gives what the snapshot reads |
| SnapshotOps.MergeAccepted | lib/di.c:543-575 | the merge is accepted exactly for snapshots that are the only child of a parent |
| SnapshotOps.MergedTreeForm | lib/di.c:543-611 | the entries form a tree again, in which the child took the place of its parent |
| SnapshotOps.MergeKeepsSnapshots | lib/di.c:543-611 | every snapshot but the absorbed parent reads exactly what it read before |
| SnapshotOps.KeptReadOf | lib/ploop.c:122-186 | the same in terms of what each guid reads |
| SnapshotTree.MergeKeepsReads | lib/merge.c:720-984 | the same on the tree as a map |
| SnapshotTree.RunningMergeKeepsReads | lib/merge.c:472-565 | while the parent's file is being rewritten every other snapshot reads as before |
| SnapshotTree.MergeNeedsOnlyChild | lib/di.c:572-577 | a second child of the parent would be left without one |
| MergeSnapshot.Resolve | lib/merge.c:745-784 | the names of the two images, exactly when the descriptor allows the merge |
| MergeSnapshot.MergeSnapshotByGuid | lib/merge.c:720-984 | offline: succeeds exactly if the descriptor allows it, neither delta is mounted and neither is in use; then the parent's guid and the child's file are gone and every other snapshot reads what it read before; otherwise the files are as they were; every crash on the way changes what none of them reads |
| RawTree.KeptWords | lib/merge.c:720-984 | over a raw base, a merge of two deltas or the removal of a leaf keeps every word of what the other snapshots read |
| RawTree.BaseMergeKeeps | lib/merge.c:862-984 | after its only child was merged into the raw base every other snapshot reads, word for word, what it read before, and the child is the raw base |
| RawTree.BaseMergeIsCrashSafe | lib/merge.c:415-611 | a crash on the way changes what none of them reads |
| RawTree.MergeSnapshotIntoRaw | lib/merge.c:720-984 | the merge into the raw base, offline, descriptor and files together: succeeds exactly if the descriptor allows it, neither delta is mounted and the child is not in use; then, and at every crash, both of these, and the child's file is gone |
| SnapshotEdits.RemoveAccepted | lib/di.c:486-518 | exactly leaves other than a base can be removed |
| SnapshotEdits.RemoveKeepsSnapshots | lib/di.c:486-541 | removing a leaf other than the top keeps what all others read |
| SnapshotEdits.RemoveTopExact | lib/di.c:526-541 | removing the top makes its parent the top and keeps all others exactly if no entry behind it names that parent |
| SnapshotEdits.SiblingBehindTop | lib/di.c:526-541 | a descriptor for which it goes wrong: two children of a base, the top listed first |
| SnapshotEdits.CreateSnapshot | lib/snapshot.c:408-414 | parents and files are the old ones with the top renamed, and a new top on it; old top and new top read what the old top read, nothing else changes |
| SnapshotEdits.SwitchSnapshot | lib/snapshot.c:668-867 | refused exactly if the top cannot be removed; then the top is on the snapshot, in the new file, reads what the snapshot reads, and nothing but the old top is lost |
| DeltaTree.DeltasMerge | lib/merge.c:377-401 | two deltas of one device, the lower not larger, can be merged if index numbers suffice |
| DeltaTree.MergedDeltas | lib/merge.c:282-667 | merging one snapshot leaves a tree in which all others can still be merged |
| OfflineSnapshots.MergePassed | lib/merge.c:720-984 | descriptor and files after a merge: still such a tree, every surviving snapshot reads as before, and exactly the files the descriptor no longer names are gone |
| OfflineSnapshots.RemovePassed | lib/snapshot.c:74-130 | the same after a leaf went with its file |
| TempSnapshots.MergeByGuid | lib/merge.c:720-984 | the exact condition for success; then the descriptor changes as the merge says and the child's file is gone, otherwise all files stay; offline every surviving snapshot reads as before, and whatever is recorded of the files comes from the absorbed snapshot's file, where every crash leaves all others reading as before |
| TempSnapshots.DoDeleteSnapshot | lib/snapshot.c:51-153 | the exact condition for success, whatever the flag: then a leaf goes with its file, an only child takes the place of the snapshot and its file goes, with more children all files stay; on failure all files stay; one with two children stays, and if it is temporary deleting it succeeds exactly if the device runs, otherwise it is only marked; offline, on success all others read as before, and every crash on the way leaves all others reading as before |
| TempSnapshots.MergeTemporarySnapshots | lib/snapshot.c:640-666 | terminates; only temporary snapshots not in use go, and the tree stays a tree however it ends; it fails only where deleting one of them is not allowed; on success a temporary snapshot not in use that is left has two children or more; offline none is left, every snapshot that is left reads as before, and exactly the files no longer named are gone; offline it fails if one of them has two children that are not temporary; every crash on the way leaves what `TempSnapshots.CrashReads` says |
| TempSnapshots.StuckStays | lib/snapshot.c:640-666 | a temporary snapshot not in use with two children that are not temporary is never taken away, so no offline run can end without it |
| TempSnapshots.StuckBase | lib/snapshot.c:640-666 | a descriptor with such a snapshot: a base marked temporary, with the top and another snapshot on it |
| TempSnapshots.CrashReads | lib/snapshot.c:640-666 | a crash while temporary snapshots are deleted leaves a descriptor and files of the run with one file crashed, and every snapshot that is not temporary reads what it read at first |
| Fiemap.AdjustExact | lib/balloon_util.c:208-233 | the adjusted extent is made of exactly the clusters that lie wholly in the old one |
| Fiemap.FiemapAdjust | lib/balloon_util.c:208-233 | every extent of the array is adjusted so |
| Fiemap.FiemapExtentProcess | lib/balloon_util.c:235-295 | walks a range of clusters table by table: what survives the recording of each entry holds at the end; fails exactly if a cluster of the range has no entry, or lies beyond the map |
| Fiemap.FiemapBuildRmap | lib/balloon_util.c:297-325 | the same for all extents, one after the other; an extent that is not in whole clusters aborts |
| Extents.Rmap2Freemap | lib/balloon_util.c:370-416 | the new extents are sorted, disjoint and maximal, and exactly the mapped entries, exactly if the map is not one of those that lose a run |
| Fiemap.BalloonFreemap | lib/balloon_util.c:208-416 | adjusting, mapping and collecting give exactly the pairs of an allocated cluster wholly in the balloon and its block; fails exactly if one of those clusters has no entry or lies beyond the map |
| RangeBuild.RangeBuildRmap | lib/balloon_util.c:492-564 | exactly the mapped blocks of the range and their number, also when it stops early because all blocks are mapped; fails exactly if a cluster beyond the map comes before that, aborts exactly for an empty range or too many clusters |
| RangeBuild.RangeFixGaps | lib/balloon_util.c:595-618 | fills every gap with the cluster of its free extent |
| RangeBuild.Pigeonhole | lib/balloon_util.c:566-593 | a tail as long as there are free blocks has as many live blocks as there are free blocks below it |
| RangeBuild.RangeBuild | lib/balloon_util.c:566-593 | if each block of the tail is mapped or free, the relocation list covers the tail and has as many live blocks as there are holes below it; the same exact failures |
| Extents.RangeSplit | lib/balloon_util.c:668-722 | the pieces are the range, in order, each wholly inside or outside the free blocks and flagged so; the final abort is not taken |
| FlagHandoff.HandoffIsSafe | lib/pcopy.c:388-443 | every packet is sent once and in order, the buffer being sent is not filled, nobody is stuck before the end; spurious wake-ups included |
| FlagHandoff.EofSkewsBuffers | lib/pcopy.c:548-563 | a run in which the buffer being sent is filled, after the end of the file was met in the first pass |
| FlagHandoff.BuffersExact | lib/pcopy.c:429-443 | the buffer being sent is left alone in every run exactly if the end of the file is not met between two packets |
| CondHandoff.HandoffIsSafe | lib/ploop-copy.c:400-475 | no signal is lost, packets are written once and in order together with the copier's own writes, the buffer being sent is not filled, nobody is stuck |
| CondHandoff.CopyIsDisciplined | lib/ploop-copy.c:701-1017 | start, iterations and stop submit, wait and write in the order the hand-off needs, whatever they read |
| CondHandoff.CopyIsSafe | lib/ploop-copy.c:701-1017 | so every copy is safe, and in the end all of it was written, in order and once |
| LiveCopy.LiveCopyIsExact | lib/ploop-copy.c:701-1017 | over all interleavings every byte is right, reported, in flight or still ahead; a finished copy is the frozen file but for the header |
| LiveCopy.NeverStuck | lib/ploop-copy.c:701-1017 | a copy that is not done can go on, unless the file ended inside a reported extent |
| LiveCopy.DroppedFile | lib/pcopy.c:229-256 | a finished copy that lost data: a packet of the length of the sync mark |
| LiveCopy.ExactUnlessDropped | lib/pcopy.c:159-285 | every finished copy is exact exactly if the receiver drops no packet |
| LiveCopy.SectorCopyIsExact | lib/pcopy.c:548-770 | a copy in whole sectors loses nothing even then |
| Bitmap.BitFindNextSet64 | lib/bit_ops.h:213-256 | the next set bit, or -1 exactly if there is none |
| Bitmap.BitFindNextClear64 | lib/bit_ops.h:270-319 | the next clear bit, or -1 exactly if there is none |
| Bitmap.SetBlock | lib/bit_ops.h:44-70 | sets exactly the bits of the block, unless 2^31 or more are left after its first byte: those are not set |
| Cbt.SetDirtyBitmapPart | lib/cbt.c:246-298 | over all calls, exactly the maximal runs of set bits, scaled; every call but the last is full |
| Cbt.GetFromKernel | lib/cbt.c:332-370 | over all answers, exactly the granules of the window that an extent touches |
| Cbt.CbtData.OrInto | lib/cbt.c:372-398 | exactly the granules of the window that a saved extent touches are added, wherever the cursor stands |
| Cbt.GetDirtyBitmapPart | lib/cbt.c:332-402 | both together |
| Cbt.RoundTrip | lib/cbt.c:246-402 | a bitmap handed to the kernel and read back is the same bitmap |
| Paths.NormalizePath | lib/xml.c:95-110 | runs of slashes become one, the last slash goes |
| Paths.NormKeepsNames | lib/xml.c:95-110 | the path keeps its names, in order, and whether it starts at the root |
| Paths.GetRelativePath | lib/xml.c:123-166 | the path behind the last common slash, after one step up for each directory left |
| Paths.GetFullPath | lib/xml.c:168-205 | steps up counted and taken back from the end of the directory |
| Paths.FullOfRelative | lib/xml.c:123-205 | relative and full again is the same path exactly if it was stored absolute or "../" does not occur behind the common part |
| Paths.StoreAndLoad | lib/xml.c:95-205 | the same for the round trip as the descriptor makes it |

## Findings

Where the code does not do what its comments or callers expect, the model does what the code does; a lemma or a method
gives an input or a run, and the exact condition is proved.

| what | source | proved by |
|---|---|---|
| The test that marks a grown image as empty compares bytes divided by the blocksize with sectors. It is right for all file lengths exactly for clusters of 512 sectors. | lib/delta_read.c:487-488 | `GrowOffline.EmptyMarkOf`, `GrowOffline.EmptyMarkExact` (its proof names the files) |
| `generate_pvd_header` computes the size of the index in 32 bits. When it needs 2^32 bytes the last slots lie outside the index, and the "l2_cluster >= l1_size" aborts are reachable. | include/ploop1_image.h:275-286, 409-417 | `Geometry.IndexHoldsAllSlots`, `Geometry.ShortIndex` |
| Removing the top passes a pointer into the array that is being renamed, so entries behind the top keep the old guid of its parent, which is gone. That parents are listed before their children does not prevent it: a sibling listed behind the top is lost. | lib/di.c:529-530 | `SnapshotEdits.RemoveTopExact`, `SnapshotEdits.SiblingBehindTop` |
| Recovery from an interrupted format conversion looks at the base's mark only. If the base is not the first image, a crash between unmarking the first image and unmarking the base ends with two versions in the stack. | lib/ploop.c:3640-3690, 3797-3840 | `FmtBase.WrongBase`, `FmtBase.BaseMustComeFirst` |
| Conversion to a preallocated image does not wait for a new cluster before it writes the entry, against the ordering rule in include/ploop1_image.h:33-37. A crash can leave an entry for a cluster past the end of the file. | lib/ploop.c:3377-3408 | `Preallocate.TornFill`, `Preallocate.PreallocateImage` |
| The same conversion is not kept off a delta with others below it ("FIXME: deny on snapshots"), where zeros then hide their data. | lib/ploop.c:3349-3420 | `Preallocate.HidesBelow`, `Preallocate.HidesOne` |
| `rmap2freemap` does not reset the length of a run it has added, so a map whose first run does not start with cluster 0, followed by an entry that maps its own number, loses entries. In the computation for a balloon such a map does not occur (`Fiemap.NoStray`). | lib/balloon_util.c:370-416 | `Extents.Loses`, `Extents.LosesOne`, `Extents.Rmap2Freemap` |
| `do_pread` switches buffers even when it meets the end of the file. If that happens in the first pass, the next packet is read into the buffer that is being sent. | lib/pcopy.c:429-443, 548-563 | `FlagHandoff.EofSkewsBuffers`, `FlagHandoff.BuffersExact` |
| A receiver drops every packet of four bytes as a request to sync, data included. | lib/pcopy.c:229-256 | `LiveCopy.DroppedFile`, `LiveCopy.ExactUnlessDropped`, `LiveCopy.SectorCopyIsExact` |
| `do_delete_snapshot` on a snapshot that is temporary already and has two children returns the answer about the device: it succeeds exactly if the device runs, and returns 1 when it does not. `merge_temporary_snapshots` on a stopped device therefore fails whenever a temporary snapshot that is not in use has two children that are not temporary. | lib/snapshot.c:66-73, 139-152 | `TempSnapshots.DoDeleteSnapshot` (`TempDeleted`), `TempSnapshots.MergeTemporarySnapshots` (`Stuck`), `TempSnapshots.StuckBase` |
| Recovery from an interrupted format conversion does nothing once the base is unmarked. With the base as the first image, a crash after it was unmarked leaves the other images marked and in use; recovery keeps them so, and every later mount is refused by the check, although the contents are right. | lib/ploop.c:3667-3680, 3820-3823, 2298-2301; lib/check.c:493-498 | `FmtMarks.RefusedAfterCrash`, `FmtMarks.CrashRefusedExact`, `FmtMarks.RefusedExact`, `FmtMarks.CleanExact` |
| The check for slots past the device compares with `>`, so the first slot past it is let through; and the 32-bit product wraps. | lib/check.c:156 | `Check.ExcessExact`, `Check.ExcessIsOutside`, `Check.ExcessMissed` |
| `BMAP_SET_BLOCK` keeps the number of bits left as a signed number: 2^31 or more of them are not set. | lib/bit_ops.h:44-70 | `Bitmap.SetBlock`, `Bitmap.SetNothing` |
| `get_full_path` counts "../" anywhere in the stored path, also as the end of a longer component. | lib/xml.c:168-205 | `Paths.FullOfRelative`, `Paths.NameEndsWithDots` |
| Converting an entry of version 1 that is not a multiple of the blocksize to version 2 silently names another sector, or none. | lib/ploop.c:3545-3563 | `Convert.EntryExact`, `Convert.EntryMoved` |

## Left out

Assumed of the kernel and the file system:

- The write tracker: bytes written below the tracked position are reported, a report starts at or below that position,
  growth past it is reported too, and the end given at the start is not before the end of the file.
- BLKCBTGET: the extents of the asked range in order, no more than asked for; BLKCBTSET keeps what it is given.
- Writing the 64-byte header and a single index entry is atomic; creating, renaming and unlinking files is durable.
- No spurious wake-ups of the threads in lib/ploop-copy.c; lib/pcopy.c is modelled with them.
- Which snapshots are in use, whether the device runs, and the mount check are fixed answers (`TempSnapshots.Env`).

Stated weaker than the source might promise:

- Grow.RelocateBlock: without a relocation map (`gm == NULL`); the map it fills names clusters of the first table only.
- GrowOffline.GrowDeltaOffline: for devices whose index stays below 2^32 bytes and file lengths whose entries fit 32
  bits.
- MergeOffline.MergeImageOffline: for deltas of one device that only grew, with entries that fit 32 bits; the code does
  not compare the lower delta's blocksize and version with the others', the model requires it.
- MergeOffline.MergesAgain: unless the crash made the file so long that entries no longer fit 32 bits.
- MergeSnapshot.MergeSnapshotByGuid: into an expanded parent; the merge into a raw base is
  `RawTree.MergeSnapshotIntoRaw`.
- RawTree.MergeSnapshotIntoRaw: for the snapshot on the base; its other merges are merges of deltas
  (`RawTree.KeptWords`).
- RawMerge.GrowRaw: as merging calls it, without the sparse branch, which uses `ftruncate` and does not sync.
- RawImage.Expanded2Raw: the temporary file and the rename are not part of this model.
- RawMerge.MergeIntoRaw: raw files of whole 32-bit words; past its end a raw file reads as zeros.
- Preallocate.PreallocateImage: for lengths whose entries fit 32 bits; the code does not check it.
- Restore.DoRestore: 1 as the in-use field, which it writes, is neither of the two signatures and is modelled as not
  in use.
- FmtProtocol.StopSafe: what recovery leaves of the marks is `FmtMarks.CleanExact`; so for FmtBase.RecoverCompletes.
- FmtSteps.SetField: crashes up to clusters past the old end of the file, which the protocol does not mention there.
- Check.PloopCheck: without the hard-force flag, from the scan on; a partial last cluster, holes in the file and the
  checks of the header itself are not part of this model.
- Check.ExcessExact: for slots whose first sector is below 2^32.
- TempSnapshots.MergeTemporarySnapshots: what snapshots read is stated for a device that does not run, whose base is not
  raw, on success and at crashes; while it runs, merging images is up to the kernel. So for TempSnapshots.MergeByGuid.
- TempSnapshots.DoDeleteSnapshot: for a base that is not raw; what snapshots read after the top was deleted is
  `SnapshotEdits.RemoveTopExact`.
- FlagHandoff.HandoffIsSafe: runs without send errors; so for CondHandoff.HandoffIsSafe.
- Fiemap.BalloonFreemap: for extents on a device whose clusters have numbers below 2^32.
- RangeBuild.RangeBuildRmap: for a valid image and a start behind the index, as its caller passes.
- RangeBuild.RangeFixGaps: for lists whose gaps are all covered by free extents; so RangeBuild makes them.
- Bitmap.SetBlock: for blocks that do not end more than 2^31 before they start.
- Cbt.CbtData.OrInto: for saved extents that do not start 2^31 granules or more behind the window.
- Cbt.RoundTrip: windows below 2^31 bits, byte positions below 2^64, saved extents starting less than 2^31 granules
  behind the window. Callers pass 2^29 bits at most. Each bitmap is cleared as a whole; lib/cbt.c:347 clears whole
  bytes.
- Cbt.GetFromKernel: an empty answer ends the loop, as in the code; the address the code computes before its first
  extent is not modelled.
- Paths.StoreAndLoad: for paths other than the root itself; so for Paths.GetRelativePath, on absolute paths.
- SnapshotEdits.RemoveTopExact: for the top named by the fixed guid; descriptors of volumes are not part of this model.

Not modelled:

- Online operations: device and sysfs lookup, grow and merge through the kernel, balloon ioctls, discard.
- The variant of merge that writes a new image, and moving dirty bitmaps between images (lib/merge.c:403-413, 661-662).
- Errors of allocation and I/O. What remains of a failed operation is what its crashes leave.
- XML, checksums, partition tables, encryption, mkfs, mounting, locking, logging, tools and bindings.
- Guids as text: letter case and validity. CHS geometry in the header.
- Files are whole clusters; opening a file with a partial last cluster rounds down (lib/delta_read.c:153-160).
- The completeness of `is_const_bit`, which compares one byte too many (lib/cbt.c:205-231).
