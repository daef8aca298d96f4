/** A tree of snapshots all of whose images are deltas of one device that only grew: what merging one snapshot after
    the other needs, and keeps. */
module DeltaTree {
  import opened Image
  import opened Geometry
  import opened Grow
  import opened GrowOffline
  import opened Merge
  import opened MergeOffline
  import opened SnapshotTree

  /** The format of all deltas, and the size of the largest device in sectors. */
  datatype Limits = Limits(blocksize: nat, version: Version, size: nat)
  {
    predicate Sensible() {
      && ValidBlocksize(blocksize) && size % blocksize == 0 && SizeFits(size, blocksize, version)
      && NeededL1(size / blocksize, blocksize) * (blocksize * SECTOR_SIZE) < U32_LIMIT
    }

    /** What one merge may add to a file, in clusters. */
    function Growth(): nat
      requires blocksize > 0
    {
      2 * NeededL1(size / blocksize, blocksize) + size / blocksize
    }
  }

  ghost predicate DeltaOk(img: Img, lim: Limits) {
    && Valid(img) && img.hdr.blocksize == lim.blocksize > 0 && img.hdr.version == lim.version
    && img.hdr.L1() == NeededL1(img.hdr.L2(), lim.blocksize)
    && img.hdr.SizeInSectors() % lim.blocksize == 0 && img.hdr.SizeInSectors() <= lim.size
  }

  /** There are index numbers for `room` more merges into `img`. */
  predicate Roomy(img: Img, lim: Limits, room: nat)
    requires lim.blocksize > 0
  {
    Fits(|img.blocks| + room * lim.Growth(), lim.blocksize, lim.version)
  }

  ghost predicate Deltas(par: Parents, files: Files, vol: Volume, lim: Limits, room: nat) {
    && lim.Sensible()
    && (forall g :: g in par ==>
        g in files && files[g] in vol && DeltaOk(vol[files[g]], lim) && Roomy(vol[files[g]], lim, room))
    && (forall g :: g in par && par[g] in par ==>
        vol[files[par[g]]].hdr.SizeInSectors() <= vol[files[g]].hdr.SizeInSectors())
  }

  // ---------- sizes ----------

  lemma WholeClusters(size: nat, bs: nat)
    requires bs > 0 && size % bs == 0
    ensures CeilDiv(size, bs) == size / bs && size / bs * bs == size
  {
    DivUnique(size + bs - 1, bs, size / bs, bs - 1);
  }

  /** What holds for the largest size holds for a smaller one. */
  lemma SmallerSize(size: nat, lim: Limits)
    requires lim.Sensible() && size % lim.blocksize == 0 && size <= lim.size
    ensures SizeFits(size, lim.blocksize, lim.version) && size / lim.blocksize <= lim.size / lim.blocksize
    ensures CeilDiv(size, lim.blocksize) == size / lim.blocksize
    ensures NeededL1(size / lim.blocksize, lim.blocksize) <= NeededL1(lim.size / lim.blocksize, lim.blocksize)
    ensures NeededL1(size / lim.blocksize, lim.blocksize) * (lim.blocksize * SECTOR_SIZE) < U32_LIMIT
  {
    var bs := lim.blocksize;
    WholeClusters(size, bs);
    WholeClusters(lim.size, bs);
    DivMono(size, lim.size, bs);
    NeededL1Mono(size / bs, lim.size / bs, bs);
    MulMono(NeededL1(size / bs, bs), NeededL1(lim.size / bs, bs), bs * SECTOR_SIZE);
  }

  /** The header of a merged delta. */
  lemma HeaderOf(size: nat, lim: Limits) returns (h: Header)
    requires lim.Sensible() && size % lim.blocksize == 0 && size <= lim.size
    ensures h == GeneratePvdHeader(size, lim.blocksize, lim.version) && h.blocksize == lim.blocksize
    ensures h.L2() == size / lim.blocksize && h.L1() == NeededL1(h.L2(), lim.blocksize)
    ensures h.L1() <= NeededL1(lim.size / lim.blocksize, lim.blocksize) && h.L2() <= lim.size / lim.blocksize
  {
    h := GeneratePvdHeader(size, lim.blocksize, lim.version);
    SmallerSize(size, lim);
    IndexHoldsAllSlots(size, lim.blocksize, lim.version, h);
  }

  lemma PeakBounded(img: Img, h: Header, a: nat)
    requires h.L1() <= a
    ensures |img.blocks| <= PeakBlocks(img, h) <= |img.blocks| + 2 * a
  {
  }

  // ---------- one merge ----------

  /** Two such deltas, the lower one not larger, can be merged. */
  lemma DeltasMerge(child: Img, parent: Img, lim: Limits)
    requires lim.Sensible() && DeltaOk(child, lim) && DeltaOk(parent, lim) && Roomy(parent, lim, 1)
    requires parent.hdr.SizeInSectors() <= child.hdr.SizeInSectors()
    ensures CanMerge([child], parent)
  {
    var size, bs, ver := child.hdr.SizeInSectors(), lim.blocksize, lim.version;
    var h := HeaderOf(size, lim);
    SmallerSize(size, lim);
    PeakBounded(parent, h, NeededL1(lim.size / bs, bs));
    FitsMono(PeakBlocks(parent, h) + child.hdr.L2(), |parent.blocks| + lim.Growth(), bs, ver);
    FitsMono(PeakBlocks(parent, h), |parent.blocks| + lim.Growth(), bs, ver);
    HeaderNonEmpty(child.hdr.L2(), bs);
    assert CanGrow(parent, size);
  }

  /** And give such a delta again. */
  lemma MergedDelta(child: Img, parent: Img, out: Img, lim: Limits)
    requires lim.Sensible() && DeltaOk(child, lim) && DeltaOk(parent, lim) && MergeDone([child], parent, out)
    ensures DeltaOk(out, lim) && |out.blocks| <= |parent.blocks| + lim.Growth()
    ensures out.hdr.SizeInSectors() == child.hdr.SizeInSectors()
  {
    var h := HeaderOf(child.hdr.SizeInSectors(), lim);
    assert HasGrown([child], out.hdr) && out.hdr.SameLayout(h);
    PeakBounded(parent, out.hdr, NeededL1(lim.size / lim.blocksize, lim.blocksize));
  }

  lemma OneLess(room: nat, g: nat)
    requires room > 0
    ensures room * g == (room - 1) * g + g && 1 * g == g && room * g >= g
  {
  }

  lemma RoomLess(img: Img, out: Img, lim: Limits, room: nat)
    requires lim.blocksize > 0 && room > 0 && Roomy(img, lim, room) && |out.blocks| <= |img.blocks| + lim.Growth()
    ensures Roomy(out, lim, room - 1)
  {
    OneLess(room, lim.Growth());
    FitsMono(|out.blocks| + (room - 1) * lim.Growth(), |img.blocks| + room * lim.Growth(), lim.blocksize, lim.version);
  }

  lemma RoomForOne(img: Img, lim: Limits, room: nat)
    requires lim.blocksize > 0 && room > 0 && Roomy(img, lim, room)
    ensures Roomy(img, lim, 1)
  {
    OneLess(room, lim.Growth());
    FitsMono(|img.blocks| + 1 * lim.Growth(), |img.blocks| + room * lim.Growth(), lim.blocksize, lim.version);
  }

  lemma CanMergeInTree(par: Parents, files: Files, vol: Volume, lim: Limits, room: nat, c: Guid)
    requires Deltas(par, files, vol, lim, room) && room > 0 && c in par && par[c] in par
    ensures CanMerge([vol[files[c]]], vol[files[par[c]]])
  {
    RoomForOne(vol[files[par[c]]], lim, room);
    DeltasMerge(vol[files[c]], vol[files[par[c]]], lim);
  }

  /** Each file of the merged tree is an old one, or the merged image. */
  lemma MergedImageOf(par: Parents, files: Files, vol: Volume, c: Guid, out: Img, g: Guid)
    requires Stored(par, files, vol) && c in par && par[c] in par && c != par[c] && g in MergedParents(par, c)
    ensures var files', vol' := MergedFiles(par, files, c), MergedVolume(par, files, vol, c, out);
      g in par && g in files' && files'[g] in vol' && vol'[files'[g]] == if g == c then out else vol[files[g]]
  {
  }

  lemma MergedParentOf(par: Parents, c: Guid, g: Guid)
    requires OnlyChild(par, c) && c != par[c] && g in MergedParents(par, c)
    ensures var par' := MergedParents(par, c);
      g in par && (g != par[c]) && par'[g] == (if g == c then par[par[c]] else par[g]) &&
      (par'[g] in par' ==> par'[g] in par)
  {
  }

  /** Merging snapshot `c` into its parent leaves such a tree, with room for one merge less. */
  lemma MergedDeltas(par: Parents, files: Files, vol: Volume, lim: Limits, room: nat, c: Guid, out: Img)
    requires Deltas(par, files, vol, lim, room) && room > 0 && Stored(par, files, vol) && OnlyChild(par, c)
    requires c != par[c]
    requires MergeDone([vol[files[c]]], vol[files[par[c]]], out)
    ensures Deltas(MergedParents(par, c), MergedFiles(par, files, c), MergedVolume(par, files, vol, c, out), lim,
      room - 1)
  {
    var par', files', vol' := MergedParents(par, c), MergedFiles(par, files, c), MergedVolume(par, files, vol, c, out);
    var x := par[c];
    MergedDelta(vol[files[c]], vol[files[x]], out, lim);
    forall g | g in par'
      ensures g in files' && files'[g] in vol' && DeltaOk(vol'[files'[g]], lim) && Roomy(vol'[files'[g]], lim, room - 1)
    {
      MergedImageOf(par, files, vol, c, out, g);
      RoomLess(if g == c then vol[files[x]] else vol[files[g]], vol'[files'[g]], lim, room);
    }
    forall g | g in par' && par'[g] in par'
      ensures vol'[files'[par'[g]]].hdr.SizeInSectors() <= vol'[files'[g]].hdr.SizeInSectors()
    {
      MergedImageOf(par, files, vol, c, out, g);
      MergedImageOf(par, files, vol, c, out, par'[g]);
      MergedParentOf(par, c, g);
    }
  }

  /** Removing a leaf leaves such a tree. */
  lemma RemovedDeltas(par: Parents, files: Files, vol: Volume, lim: Limits, room: nat, x: Guid)
    requires Deltas(par, files, vol, lim, room) && Stored(par, files, vol) && x in par
    ensures Deltas(Without(par, x), Without(files, x), Without(vol, files[x]), lim, room)
  {
  }
}
