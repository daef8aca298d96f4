/** Descriptor and image files together while the device does not run: what deleting snapshots one after the other
    needs, and keeps. */
module OfflineSnapshots {
  import opened Image
  import opened SnapshotTree
  import opened Descriptor
  import opened SnapshotOps
  import opened SnapshotEdits
  import opened MergeOffline
  import opened DeltaTree

  /** A tree of snapshots of one device that only grew, with room to merge all of them. */
  ghost predicate Healthy(d: Desc, vol: Volume, lim: Limits) {
    WellFormed(d, vol) && Deltas(ParentsOf(d), FilesOf(d), vol, lim, |d.snaps|)
  }

  ghost predicate ReadsSame(d: Desc, vol: Volume, d': Desc, vol': Volume, g: Guid, v: nat) {
    SameRead(ParentsOf(d), FilesOf(d), vol, g, ParentsOf(d'), FilesOf(d'), vol', g, v)
  }

  /** Every snapshot that is left was there before, and reads what it read. */
  ghost predicate Survivors(d: Desc, vol: Volume, d': Desc, vol': Volume) {
    && ParentsOf(d').Keys <= ParentsOf(d).Keys
    && forall g, v: nat :: g in ParentsOf(d') ==> ReadsSame(d, vol, d', vol', g, v)
  }

  /** Exactly the files that the descriptor no longer names are gone. */
  ghost predicate FilesGone(d: Desc, vol: Volume, d': Desc, vol': Volume) {
    && FilesOf(d').Values <= FilesOf(d).Values
    && vol'.Keys == vol.Keys - (FilesOf(d).Values - FilesOf(d').Values)
  }

  ghost predicate Passed(lim: Limits, d: Desc, vol: Volume, d': Desc, vol': Volume) {
    && Healthy(d, vol, lim) && Healthy(d', vol', lim) && Survivors(d, vol, d', vol')
    && FilesGone(d, vol, d', vol')
  }

  lemma MergedGone(par: Parents, files: Files, vol: Volume, c: Guid, out: Img)
    requires Stored(par, files, vol) && OnlyChild(par, c) && c != par[c]
    ensures MergedFiles(par, files, c).Values == files.Values - {files[c]}
    ensures MergedVolume(par, files, vol, c, out).Keys == vol.Keys - {files[c]}
  {
    var files', x := MergedFiles(par, files, c), par[c];
    assert files'[c] == files[x];
    forall f | f in files.Values - {files[c]} ensures f in files'.Values {
      var g :| g in files && files[g] == f;
      assert files'[if g == x then c else g] == f;
    }
  }

  lemma WithoutGone(files: Files, vol: Volume, g: Guid)
    requires g in files && forall a, b :: a in files && b in files && a != b ==> files[a] != files[b]
    ensures Without(files, g).Values == files.Values - {files[g]}
    ensures Without(vol, files[g]).Keys == vol.Keys - {files[g]}
  {
    forall f | f in files.Values - {files[g]} ensures f in Without(files, g).Values {
      var h :| h in files && files[h] == f;
      assert Without(files, g)[h] == f;
    }
  }

  lemma NothingPassed(lim: Limits, d: Desc, vol: Volume)
    requires Healthy(d, vol, lim)
    ensures Passed(lim, d, vol, d, vol)
  {
    forall g, v: nat | g in ParentsOf(d) ensures ReadsSame(d, vol, d, vol, g, v) { }
  }

  lemma PassedTwice(lim: Limits, a: Desc, va: Volume, b: Desc, vb: Volume, c: Desc, vc: Volume)
    requires Passed(lim, a, va, b, vb) && Passed(lim, b, vb, c, vc)
    ensures Passed(lim, a, va, c, vc)
  {
    forall g, v: nat | g in ParentsOf(c) ensures ReadsSame(a, va, c, vc, g, v) {
      assert ReadsSame(a, va, b, vb, g, v) && ReadsSame(b, vb, c, vc, g, v);
    }
  }

  lemma KeptSurvivors(d: Desc, vol: Volume, d': Desc, vol': Volume, gone: Guid)
    requires Kept(d, vol, d', vol', gone, gone, gone) && ParentsOf(d').Keys == ParentsOf(d).Keys - {gone}
    ensures Survivors(d, vol, d', vol')
  {
    forall g, v: nat | g in ParentsOf(d') ensures ReadsSame(d, vol, d', vol', g, v) {
      assert SameRead(ParentsOf(d), FilesOf(d), vol, g, ParentsOf(d'), FilesOf(d'), vol', Ren(gone, gone, g), v);
    }
  }

  lemma LessRoom(par: Parents, files: Files, vol: Volume, lim: Limits, room: nat)
    requires Deltas(par, files, vol, lim, room) && room > 0
    ensures Deltas(par, files, vol, lim, room - 1)
  {
    forall g | g in par ensures Roomy(vol[files[g]], lim, room - 1) {
      RoomLess(vol[files[g]], vol[files[g]], lim, room);
    }
  }

  /** The images of a snapshot and its parent can be merged. */
  lemma CanMergeHealthy(d: Desc, vol: Volume, lim: Limits, c: Guid)
    requires Healthy(d, vol, lim) && MergeCheck(d, c) == Ok
    ensures c in ParentsOf(d) && ParentsOf(d)[c] in ParentsOf(d)
    ensures var child, parent := FilesOf(d)[c], FilesOf(d)[ParentsOf(d)[c]];
      child in vol && parent in vol && child != parent && CanMerge([vol[child]], vol[parent])
    ensures FilesOf(d)[c] == d.images[FindImage(d.images, c)].file
  {
    Found(d, c);
    MergedTreeForm(d, c);
    CanMergeInTree(ParentsOf(d), FilesOf(d), vol, lim, |d.snaps|, c);
  }

  lemma MergedFilesGone(d: Desc, vol: Volume, c: Guid, out: Img)
    requires WellFormed(d, vol) && MergeCheck(d, c) == Ok && c in ParentsOf(d) && ParentsOf(d)[c] in ParentsOf(d)
    ensures FilesGone(d, vol, DescMerged(d, c), MergedVolume(ParentsOf(d), FilesOf(d), vol, c, out))
  {
    MergedTreeForm(d, c);
    MergedGone(ParentsOf(d), FilesOf(d), vol, c, out);
    NameGone(FilesOf(d).Values, vol.Keys, FilesOf(d)[c]);
  }

  lemma NameGone(names: set<string>, all: set<string>, f: string)
    requires f in names
    ensures all - (names - (names - {f})) == all - {f}
  {
  }

  /** A snapshot was merged into its parent. */
  lemma MergePassed(d: Desc, vol: Volume, lim: Limits, c: Guid, out: Img)
    requires Healthy(d, vol, lim) && MergeCheck(d, c) == Ok && c in ParentsOf(d) && ParentsOf(d)[c] in ParentsOf(d)
    requires MergeDone([vol[FilesOf(d)[c]]], vol[FilesOf(d)[ParentsOf(d)[c]]], out)
    ensures Passed(lim, d, vol, DescMerged(d, c), MergedVolume(ParentsOf(d), FilesOf(d), vol, c, out))
  {
    var par, files, x := ParentsOf(d), FilesOf(d), ParentsOf(d)[c];
    MergedTreeForm(d, c);
    SameEntries(d, c);
    MergedDeltas(par, files, vol, lim, |d.snaps|, c, out);
    DivMono(vol[files[x]].hdr.SizeInSectors(), vol[files[c]].hdr.SizeInSectors(), lim.blocksize);
    MergeKeepsSnapshots(d, vol, c, x, out);
    MergedFilesGone(d, vol, c, out);
    KeptSurvivors(d, vol, DescMerged(d, c), MergedVolume(par, files, vol, c, out), x);
  }

  lemma RemovedIs(d: Desc, g: Guid)
    requires TreeForm(d) && RemoveCheck(d, g) == Ok && g != d.top
    ensures var d' := Removed(d, g, true);
      ParentsOf(d') == Without(ParentsOf(d), g) && FilesOf(d') == Without(FilesOf(d), g) && |d'.snaps| == |d.snaps| - 1
    ensures g in ParentsOf(d) && g in FilesOf(d) && FilesOf(d)[g] == d.images[FindImage(d.images, g)].file
  {
    Found(d, g);
    RemovedRows(d, g);
  }

  lemma LeafGone(d: Desc, vol: Volume, lim: Limits, g: Guid, d': Desc, vol': Volume)
    requires Healthy(d, vol, lim) && g in ParentsOf(d) && vol' == Without(vol, FilesOf(d)[g])
    requires ParentsOf(d') == Without(ParentsOf(d), g) && FilesOf(d') == Without(FilesOf(d), g)
    requires |d'.snaps| == |d.snaps| - 1
    requires Kept(d, vol, d', vol', g, g, g)
    ensures Passed(lim, d, vol, d', vol')
  {
    RemovedDeltas(ParentsOf(d), FilesOf(d), vol, lim, |d.snaps|, g);
    LessRoom(ParentsOf(d'), FilesOf(d'), vol', lim, |d.snaps|);
    WithoutGone(FilesOf(d), vol, g);
    KeptSurvivors(d, vol, d', vol', g);
  }

  /** A leaf other than the top was removed. */
  lemma RemovePassed(d: Desc, vol: Volume, lim: Limits, g: Guid)
    requires Healthy(d, vol, lim) && RemoveCheck(d, g) == Ok && g != d.top && g in FilesOf(d)
    ensures Passed(lim, d, vol, Removed(d, g, true), Without(vol, FilesOf(d)[g]))
  {
    RemovedIs(d, g);
    RemoveKeepsSnapshots(d, vol, g, true);
    LeafGone(d, vol, lim, g, Removed(d, g, true), Without(vol, FilesOf(d)[g]));
  }

  /** Only flags changed. */
  lemma FlagsPassed(d: Desc, vol: Volume, lim: Limits, d': Desc)
    requires Healthy(d, vol, lim) && d'.images == d.images && SnapRows(d'.snaps) == SnapRows(d.snaps)
    ensures Passed(lim, d, vol, d', vol)
  {
    NothingPassed(lim, d, vol);
    assert |d'.snaps| == |SnapRows(d'.snaps)|;
    forall g, v: nat | g in ParentsOf(d') ensures ReadsSame(d, vol, d', vol, g, v) {
      assert ReadsSame(d, vol, d, vol, g, v);
    }
  }
}
