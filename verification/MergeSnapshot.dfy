/** Merging a snapshot into its parent, offline: descriptor and image files together. */
module MergeSnapshot {
  import opened Image
  import opened Disk
  import opened Merge
  import opened SnapshotTree
  import opened Descriptor
  import opened SnapshotOps
  import opened MergeOffline

  /** What the files hold. */
  ghost function VolOf(files: map<string, File>): Volume
    reads files.Values
  {
    map f | f in files :: files[f].cur
  }

  /** Every name has a file object of its own, and nothing is pending. */
  ghost predicate Quiescent(files: map<string, File>)
    reads files.Values
  {
    && (forall a, b :: a in files && b in files && a != b ==> files[a] != files[b])
    && (forall a :: a in files ==> files[a].cur == files[a].dur && files[a].log == [])
  }

  /** The image of `c` and the image below it are deltas of one device that only grew. */
  ghost predicate DeltasFit(d: Desc, vol: Volume, c: Guid)
    requires WellFormed(d, vol) && c in ParentsOf(d) && ParentsOf(d)[c] in ParentsOf(d)
  {
    CanMerge([vol[FilesOf(d)[c]]], vol[FilesOf(d)[ParentsOf(d)[c]]])
  }

  /** Whatever a crash leaves in the parent's file, all other snapshots read as before. */
  ghost predicate CrashSafe(d: Desc, vol: Volume, x: Guid, s: Snap) {
    x in FilesOf(d) && forall img :: Possible(s, img) ==> Kept(d, vol, d, vol[FilesOf(d)[x] := img], x, x, x)
  }

  lemma MergeIsCrashSafe(d: Desc, vol: Volume, c: Guid, s: Snap)
    requires WellFormed(d, vol) && OnlyChild(ParentsOf(d), c) && c != ParentsOf(d)[c]
    requires MergeSafe([vol[FilesOf(d)[c]]], vol[FilesOf(d)[ParentsOf(d)[c]]], s)
    ensures CrashSafe(d, vol, ParentsOf(d)[c], s)
  {
    var par, files := ParentsOf(d), FilesOf(d);
    var x := par[c];
    var child, parent := vol[files[c]], vol[files[x]];
    forall img | Possible(s, img) ensures Kept(d, vol, d, vol[files[x] := img], x, x, x) {
      assert SameStack([child], parent, img);
      assert [child] + [img] == [child, img] && [child] + [parent] == [child, parent];
      RunningMergeKeepsReads(par, files, vol, c, img);
    }
  }

  /** The descriptor before, and the guids of the child and of the parent that absorbs its data. */
  ghost predicate Family(d: Desc, vol: Volume, c: Guid, x: Guid) {
    WellFormed(d, vol) && c in ParentsOf(d) && x == ParentsOf(d)[c] && x in ParentsOf(d)
  }

  /** The two images a merge works on. */
  ghost predicate Names(d: Desc, c: Guid, child: string, parent: string) {
    && c in FilesOf(d) && c in ParentsOf(d) && ParentsOf(d)[c] in FilesOf(d)
    && child == FilesOf(d)[c] && parent == FilesOf(d)[ParentsOf(d)[c]]
  }

  /** Looks up the two images; fails exactly when the descriptor does not allow the merge. */
  method Resolve(dd: DiskDescriptor, guid: Guid) returns (r: Code, child: string, parent: string)
    requires TreeForm(dd.State())
    ensures r == MergeCheck(dd.State(), guid)
    ensures r == Ok ==> Names(dd.State(), guid, child, parent)
  {
    ghost var d := dd.State();
    child, parent, r := "", "", Param;
    Found(d, guid);
    var childIdx := dd.FindSnapshotByGuid(guid);
    if childIdx == -1 { return; }
    var im := dd.FindImageIdxByGuid(guid);
    if im == -1 { return; }
    var parentGuid := dd.snapshots[childIdx].parent;
    if parentGuid == NONE_UUID { return; }
    HasParent(d, guid);
    Found(d, parentGuid);
    var pim := dd.FindImageIdxByGuid(parentGuid);
    if pim == -1 { return; }
    var parentIdx := dd.FindSnapshotByGuid(parentGuid);
    if parentIdx == -1 { return; }
    var nelem := dd.GetChildCountByUuid(parentGuid);
    if nelem > 1 { return; }
    return Ok, dd.images[im].file, dd.images[pim].file;
  }

  /** Merges the child's image into the parent's file and removes the child's. `kept` is what a finished merge
      keeps, `safe` what every crash on the way keeps. */
  method MergeFiles(files: map<string, File>, child: string, parent: string, ghost kept: Volume -> bool,
        ghost safe: Snap -> bool)
    returns (m: MergeResult, left: map<string, File>)
    requires child in files && parent in files && child != parent && Quiescent(files)
    requires CanMerge([files[child].cur], files[parent].cur)
    requires forall out :: MergeDone([files[child].cur], files[parent].cur, out) ==>
      kept(Without(VolOf(files), child)[parent := out])
    requires forall s :: MergeSafe([files[child].cur], files[parent].cur, s) ==> safe(s)
    modifies files[parent]
    ensures m == MergeResult.Merged <==> !old(files[child].cur.hdr.inUse) && !old(files[parent].cur.hdr.inUse)
    ensures m != MergeResult.Merged ==> VolOf(left) == old(VolOf(files))
    ensures m == MergeResult.Merged ==> kept(VolOf(left)) && Quiescent(left)
    ensures left.Keys == if m == MergeResult.Merged then files.Keys - {child} else files.Keys
    ensures forall f :: f in left ==> f in files && left[f] == files[f]
    ensures old(files[parent].trace) <= files[parent].trace
    ensures forall k :: |old(files[parent].trace)| <= k < |files[parent].trace| ==> safe(files[parent].trace[k])
  {
    left := files;
    m := MergeImageOffline([files[child].cur], files[parent]);
    if m == MergeResult.Merged {
      left := map f | f in files && f != child :: files[f];
      assert VolOf(left) == Without(old(VolOf(files)), child)[parent := files[parent].cur];
    }
  }

  /** The delta of snapshot `g` is in use. */
  predicate DeltaInUse(d: Desc, vol: Volume, g: Guid) {
    g in FilesOf(d) && FilesOf(d)[g] in vol && vol[FilesOf(d)[g]].hdr.inUse
  }

  lemma CanMergeOne(child: Img, parent: Img)
    requires CanMerge([child], parent)
    ensures Valid(child) && Valid(parent) && parent.hdr.blocksize == child.hdr.blocksize > 0
    ensures parent.hdr.SizeInSectors() <= child.hdr.SizeInSectors()
  {
    assert Valid([child][0]);
  }

  lemma DoneIsMergeable(child: Img, parent: Img, out: Img)
    requires CanMerge([child], parent) && MergeDone([child], parent, out)
    ensures MergeableInto(child, parent, out)
  {
    CanMergeOne(child, parent);
    DivMono(parent.hdr.SizeInSectors(), child.hdr.SizeInSectors(), child.hdr.blocksize);
  }

  lemma MergeOutcome(d: Desc, vol: Volume, c: Guid, x: Guid, child: string, parent: string, out: Img)
    requires Family(d, vol, c, x) && MergeCheck(d, c) == Ok && DeltasFit(d, vol, c) && Names(d, c, child, parent)
    requires MergeDone([vol[child]], vol[parent], out)
    ensures Kept(d, vol, DescMerged(d, c), Without(vol, child)[parent := out], x, x, x)
  {
    DoneIsMergeable(vol[child], vol[parent], out);
    MergeKeepsSnapshots(d, vol, c, x, out);
  }

  /** All that the image side of the merge needs, and what its outcomes keep. */
  lemma Prepared(d: Desc, vol: Volume, c: Guid, x: Guid, child: string, parent: string)
    returns (kept: Volume -> bool, safe: Snap -> bool)
    requires Family(d, vol, c, x) && MergeCheck(d, c) == Ok && DeltasFit(d, vol, c) && Names(d, c, child, parent)
    ensures child in vol && parent in vol && child != parent && CanMerge([vol[child]], vol[parent])
    ensures child == d.images[FindImage(d.images, c)].file && parent == FilesOf(d)[x]
    ensures forall s :: MergeSafe([vol[child]], vol[parent], s) ==> safe(s)
    ensures forall out :: MergeDone([vol[child]], vol[parent], out) ==> kept(Without(vol, child)[parent := out])
    ensures forall s :: safe(s) ==> CrashSafe(d, vol, x, s)
    ensures forall vol' :: kept(vol') ==> Kept(d, vol, DescMerged(d, c), vol', x, x, x)
  {
    safe := s => CrashSafe(d, vol, x, s);
    kept := vol' => Kept(d, vol, DescMerged(d, c), vol', x, x, x);
    Found(d, c);
    MergedTreeForm(d, c);
    forall s | MergeSafe([vol[child]], vol[parent], s) ensures CrashSafe(d, vol, x, s) {
      MergeIsCrashSafe(d, vol, c, s);
    }
    forall out | MergeDone([vol[child]], vol[parent], out)
      ensures Kept(d, vol, DescMerged(d, c), Without(vol, child)[parent := out], x, x, x)
    {
      MergeOutcome(d, vol, c, x, child, parent, out);
    }
  }

  /** What merging snapshot `c` into its parent `x` comes to. It succeeds exactly if the descriptor allows it, neither
      delta is mounted and neither is in use. Then the parent's guid and the child's file are gone, and all other
      snapshots read what they read before; otherwise the files are as they were. */
  ghost predicate Outcome(d: Desc, vol: Volume, c: Guid, x: Guid, mounted: Code, r: Code, d': Desc, vol': Volume) {
    && (r == Ok <==> MergeCheck(d, c) == Ok && mounted == Ok && !DeltaInUse(d, vol, c) && !DeltaInUse(d, vol, x))
    && (MergeCheck(d, c) != Ok ==> r == Param && d' == d)
    && (MergeCheck(d, c) == Ok && mounted != Ok ==> r == mounted && d' == d)
    && (MergeCheck(d, c) == Ok && mounted == Ok ==> d' == DescMerged(d, c) && (r == Ok || r == MergeFailed))
    && (r != Ok ==> vol' == vol) && (r == Ok ==> MergedAway(d, vol, c, x, d', vol'))
  }

  ghost predicate MergedAway(d: Desc, vol: Volume, c: Guid, x: Guid, d': Desc, vol': Volume) {
    && c in FilesOf(d) && ParentsOf(d').Keys == ParentsOf(d).Keys - {x} && vol'.Keys == vol.Keys - {FilesOf(d)[c]}
    && Kept(d, vol, d', vol', x, x, x)
  }

  lemma Concluded(d: Desc, vol: Volume, c: Guid, x: Guid, child: string, parent: string, r: Code, vol': Volume)
    requires Family(d, vol, c, x) && MergeCheck(d, c) == Ok && Names(d, c, child, parent)
    requires child in vol && parent in vol && (r == Ok <==> !vol[child].hdr.inUse && !vol[parent].hdr.inUse)
    requires (r == Ok || r == MergeFailed) && (r != Ok ==> vol' == vol)
    requires r == Ok ==> vol'.Keys == vol.Keys - {child} && Kept(d, vol, DescMerged(d, c), vol', x, x, x)
    ensures Outcome(d, vol, c, x, Ok, r, DescMerged(d, c), vol')
  {
    MergedTreeForm(d, c);
  }

  /** `ploop_merge_snapshot_by_guid` while the device is not running. `mounted` is the answer of the check
      that neither delta is mounted. On success all snapshots other than the absorbed parent read exactly
      what they read before; a crash on the way changes what none of them reads. */
  method MergeSnapshotByGuid(dd: DiskDescriptor, files: map<string, File>, guid: Guid, mounted: Code, ghost x: Guid)
    returns (r: Code, left: map<string, File>)
    requires Quiescent(files) && WellFormed(dd.State(), VolOf(files))
    requires MergeCheck(dd.State(), guid) == Ok ==>
      Family(dd.State(), VolOf(files), guid, x) && DeltasFit(dd.State(), VolOf(files), guid)
    modifies dd, files.Values
    ensures Outcome(old(dd.State()), old(VolOf(files)), guid, x, mounted, r, dd.State(), VolOf(left))
    ensures forall f :: f in left ==> f in files && left[f] == files[f]
    ensures old(MergeCheck(dd.State(), guid)) == Ok ==> var f := files[FilesOf(old(dd.State()))[x]];
      AllCrashSafe(old(dd.State()), old(VolOf(files)), x, f.trace, |old(f.trace)|)
  {
    left := files;
    var child, parent;
    r, child, parent := Resolve(dd, guid);
    if r != Ok { return; }
    if mounted != Ok { return mounted, files; }
    r, left := MergeResolved(dd, files, guid, child, parent, x);
  }

  ghost predicate AllCrashSafe(d: Desc, vol: Volume, x: Guid, trace: seq<Snap>, from: nat) {
    forall k :: from <= k < |trace| ==> CrashSafe(d, vol, x, trace[k])
  }

  /** The same once the two images are known. */
  method MergeResolved(dd: DiskDescriptor, files: map<string, File>, guid: Guid, child: string, parent: string,
        ghost x: Guid)
    returns (r: Code, left: map<string, File>)
    requires Quiescent(files) && MergeCheck(dd.State(), guid) == Ok && Names(dd.State(), guid, child, parent)
    requires Family(dd.State(), VolOf(files), guid, x) && DeltasFit(dd.State(), VolOf(files), guid)
    modifies dd, files.Values
    ensures parent == FilesOf(old(dd.State()))[x] && parent in files
    ensures Outcome(old(dd.State()), old(VolOf(files)), guid, x, Ok, r, dd.State(), VolOf(left))
    ensures forall f :: f in left ==> f in files && left[f] == files[f]
    ensures AllCrashSafe(old(dd.State()), old(VolOf(files)), x, files[parent].trace, |old(files[parent].trace)|)
  {
    ghost var d, vol := dd.State(), VolOf(files);
    ghost var kept, safe := Prepared(d, vol, guid, x, child, parent);
    r, left := MergePrepared(dd, files, guid, child, parent, kept, safe);
    Concluded(d, vol, guid, x, child, parent, r, VolOf(left));
  }

  /** First the descriptor's entries, then the images. */
  method MergePrepared(dd: DiskDescriptor, files: map<string, File>, guid: Guid, child: string, parent: string,
        ghost kept: Volume -> bool, ghost safe: Snap -> bool)
    returns (r: Code, left: map<string, File>)
    requires MergeCheck(dd.State(), guid) == Ok && child == dd.images[FindImage(dd.images, guid)].file
    requires child in files && parent in files && child != parent && Quiescent(files)
    requires CanMerge([files[child].cur], files[parent].cur)
    requires forall out :: MergeDone([files[child].cur], files[parent].cur, out) ==>
      kept(Without(VolOf(files), child)[parent := out])
    requires forall s :: MergeSafe([files[child].cur], files[parent].cur, s) ==> safe(s)
    modifies dd, files[parent]
    ensures r == Ok <==> !old(files[child].cur.hdr.inUse) && !old(files[parent].cur.hdr.inUse)
    ensures r != Ok ==> VolOf(left) == old(VolOf(files))
    ensures r == Ok ==> kept(VolOf(left)) && Quiescent(left)
    ensures left.Keys == if r == Ok then files.Keys - {child} else files.Keys
    ensures dd.State() == DescMerged(old(dd.State()), guid) && (r == Ok || r == MergeFailed)
    ensures forall f :: f in left ==> f in files && left[f] == files[f]
    ensures old(files[parent].trace) <= files[parent].trace
    ensures forall k :: |old(files[parent].trace)| <= k < |files[parent].trace| ==> safe(files[parent].trace[k])
  {
    var fname, m;
    r, fname := dd.MergeImage(guid);
    assert fname == child && VolOf(files) == old(VolOf(files));
    m, left := MergeFiles(files, fname, parent, kept, safe);
    if m != MergeResult.Merged { r := MergeFailed; }
  }
}
