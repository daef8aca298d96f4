/** `ploop_grow_delta_offline`: checks, marking, growing, unmarking. */
module GrowOffline {
  import opened Image
  import opened Disk
  import opened Geometry
  import opened DeltaFile
  import opened Grow

  datatype Outcome = Done | OpenFailed | BadParam

  /** Changing only the in-use mark shows the old device at every step. */
  lemma MarkSafe(img0: Img, h: Header, s: Snap)
    requires !img0.hdr.inUse && Valid(img0) && s.dur.blocks == img0.blocks && s.dur.hdr.SameLayout(img0.hdr)
    requires forall k :: 0 <= k < |s.log| ==> s.log[k].InUseAt?
    ensures SnapSafe(img0, h, s)
  {
    forall c | Possible(s, c) ensures ShowsOld(img0, h, c) {
      HeaderOnly(img0.hdr, s, c);
      Longer(img0, h, c);
    }
  }

  /** A file that only got longer shows the old device. */
  lemma Longer(img0: Img, h: Header, c: Img)
    requires Valid(img0) && WellSized(c) && c.hdr.SameLayout(img0.hdr) && img0.blocks <= c.blocks
    ensures Valid(c) && forall v: nat :: Read(c, v) == Read(img0, v)
    ensures img0.hdr.L2() == c.hdr.L2()
  {
    SameIndexValid(img0, c);
    forall v: nat ensures Read(c, v) == Read(img0, v) { ReadExtended(img0, c, v); }
  }

  /** Being shown as old does not depend on the in-use mark of the old image. */
  lemma SafeForMarked(img0: Img, img1: Img, h: Header, s: Snap)
    requires !img0.hdr.inUse && Valid(img0) && img1.blocks == img0.blocks && img1.hdr.SameLayout(img0.hdr)
    requires ShowsSafe(img1, h, s)
    ensures SnapSafe(img0, h, s)
  {
    forall c | Possible(s, c) ensures ShowsOld(img0, h, c) {
      forall v: nat ensures Read(img1, v) == Read(img0, v) { ReadExtended(img0, img1, v); }
    }
  }

  /** Clearing the in-use mark after the header was written. */
  lemma ClearSafe(img0: Img, img1: Img, h: Header, d: Img, h': Header)
    requires !img0.hdr.inUse && Valid(img0) && Valid(img1)
    requires img1.blocks == img0.blocks && img1.hdr.SameLayout(img0.hdr)
    requires Larger(img1.hdr, h) && GrownOver(img1, h, d) && h'.SameLayout(h)
    ensures SnapSafe(img0, h, Snap(d, [HeaderAt(h'), InUseAt(false)]))
    ensures SnapSafe(img0, h, Snap(d.(hdr := h'.(inUse := false)), []))
    ensures Valid(d.(hdr := h'.(inUse := false))) && ShowsOld(img0, h, d.(hdr := h'.(inUse := false)))
  {
    var e := d.(hdr := h'.(inUse := false));
    HeaderShows(img1, h, Snap(d, [HeaderAt(h'), InUseAt(false)]), h.L1());
    SafeForMarked(img0, img1, h, Snap(d, [HeaderAt(h'), InUseAt(false)]));
    ClearedImage(img1, h, d, e.hdr);
    forall v: nat ensures Read(img1, v) == Read(img0, v) { ReadExtended(img0, img1, v); }
    forall c | Possible(Snap(e, []), c) ensures ShowsOld(img0, h, c) {
      SyncedCrash(e, c);
      forall v: nat ensures Read(c, v) == Read(e, v) { ReadExtended(e, c, v); }
    }
  }

  lemma NeededL1Mono(m: nat, m': nat, bs: nat)
    requires bs > 0 && m <= m'
    ensures NeededL1(m, bs) <= NeededL1(m', bs)
  {
    var q := NeededBounds(m, bs);
    var q' := NeededBounds(m', bs);
    MulMono(q', q - 1, bs * 128);
  }

  /** A delta whose index is as short as its size allows, and that can be grown to `newSize`. */
  ghost predicate CanGrow(img: Img, newSize: nat) {
    var bs, ver := img.hdr.blocksize, img.hdr.version;
    && Valid(img) && ValidBlocksize(bs) && img.hdr.L1() == NeededL1(img.hdr.L2(), bs)
    && SizeFits(newSize, bs, ver) && NeededL1(CeilDiv(newSize, bs), bs) * (bs * SECTOR_SIZE) < U32_LIMIT
    && Fits(PeakBlocks(img, GeneratePvdHeader(newSize, bs, ver)), bs, ver)
  }

  lemma GrowsLarger(img: Img, newSize: nat, h: Header)
    requires CanGrow(img, newSize) && h == GeneratePvdHeader(newSize, img.hdr.blocksize, img.hdr.version)
    requires h.SizeInSectors() >= img.hdr.SizeInSectors()
    ensures Larger(img.hdr, h)
  {
    IndexHoldsAllSlots(newSize, h.blocksize, h.version, h);
    DivMono(img.hdr.SizeInSectors(), h.SizeInSectors(), h.blocksize);
    NeededL1Mono(img.hdr.L2(), h.L2(), h.blocksize);
  }

  lemma TightIndex(img: Img, newSize: nat, h: Header)
    requires CanGrow(img, newSize) && h == GeneratePvdHeader(newSize, img.hdr.blocksize, img.hdr.version)
    ensures h.L1() == NeededL1(h.L2(), h.blocksize) && h.firstBlock == h.L1() * h.blocksize
  {
    IndexHoldsAllSlots(newSize, h.blocksize, h.version, h);
  }

  function Unmarked(img: Img): Img { img.(hdr := img.hdr.(inUse := false)) }

  /** Whatever an interrupted grow left can be grown again, once its in-use mark is dropped, unless a file that the
      crash made longer has become too long. */
  lemma GrowsAgain(img: Img, newSize: nat, c: Img)
    requires CanGrow(img, newSize) && newSize % img.hdr.blocksize == 0 && img.hdr.SizeInSectors() <= newSize
    requires var h := GeneratePvdHeader(newSize, img.hdr.blocksize, img.hdr.version);
      ShowsOld(img, h, c) && Fits(PeakBlocks(c, h), h.blocksize, h.version)
    ensures CanGrow(Unmarked(c), newSize) && Unmarked(c).hdr.SizeInSectors() <= newSize
    ensures ShowsOld(img, GeneratePvdHeader(newSize, img.hdr.blocksize, img.hdr.version), Unmarked(c))
  {
    var h := GeneratePvdHeader(newSize, img.hdr.blocksize, img.hdr.version);
    TightIndex(img, newSize, h);
    ExactSize(newSize, img.hdr.blocksize, img.hdr.version);
    MarkedValid(c, Unmarked(c));
    forall v: nat ensures Read(Unmarked(c), v) == Read(c, v) { ReadExtended(c, Unmarked(c), v); }
  }

  /** Mark in use and grow. */
  method MarkAndGrow(d: Delta, newSize: nat, vh: Header)
    requires d.Synced() && d.l2Cache == -1 && d.file.cur == d.file.dur && d.file.log == [] && Valid(d.file.cur)
    requires vh == GeneratePvdHeader(newSize, d.blocksize, d.version) && !d.file.cur.hdr.inUse
    requires Larger(d.file.cur.hdr, vh) && Fits(PeakBlocks(d.file.cur, vh), d.blocksize, d.version)
    modifies d, d.file
    ensures old(d.file.trace) <= d.file.trace && TraceSafe(old(d.file.cur), vh, d.file.trace, |old(d.file.trace)|)
    ensures forall k :: |old(d.file.trace)| <= k < |d.file.trace| ==> Watched(old(d.file.cur.blocks), d.file.trace[k])
    ensures d.Synced() && Valid(d.file.cur) && d.file.cur.hdr.SameLayout(vh) && d.file.cur.hdr.inUse
    ensures d.file.dur.hdr.inUse
    ensures d.file.log == [HeaderAt(d.file.cur.hdr)] && d.file.cur.blocks == d.file.dur.blocks
    ensures ShowsOld(old(d.file.cur), vh, d.file.cur) && |d.file.cur.blocks| <= PeakBlocks(old(d.file.cur), vh)
    ensures GrownOver(Apply(old(d.file.cur), InUseAt(true)), vh, d.file.dur)
    ensures d.file.cur.hdr.flags == EmptyFlags(|d.file.cur.blocks|, d.file.cur.hdr.firstBlock)
  {
    ghost var img0, t0 := d.file.cur, d.file.trace;
    d.ChangeState(true);
    assert old(d.file.log) + [InUseAt(true)] == [InUseAt(true)];
    ghost var img1, t1 := d.file.cur, d.file.trace;
    MarkedValid(img0, img1);
    MarkTrace(img0, img1, vh, t0, t1);
    var st := GrowDelta(d, newSize);
    assert Grown(img1, vh, d, t1);
    GrowTrace(img0, img1, vh, t0, t1, d.file.trace);
    MarkedShows(img0, img1, vh, d.file.cur);
  }

  lemma MarkedShows(img0: Img, img1: Img, h: Header, c: Img)
    requires Valid(img0) && img1.blocks == img0.blocks && img1.hdr.SameLayout(img0.hdr) && ShowsOld(img1, h, c)
    ensures ShowsOld(img0, h, c)
  {
    forall v: nat ensures Read(img1, v) == Read(img0, v) { ReadExtended(img0, img1, v); }
  }

  /** Mark in use, grow, clear the mark. */
  method GrowMarked(d: Delta, newSize: nat, vh: Header)
    requires d.Synced() && d.l2Cache == -1 && d.file.cur == d.file.dur && d.file.log == [] && Valid(d.file.cur)
    requires vh == GeneratePvdHeader(newSize, d.blocksize, d.version) && !d.file.cur.hdr.inUse
    requires Larger(d.file.cur.hdr, vh) && Fits(PeakBlocks(d.file.cur, vh), d.blocksize, d.version)
    modifies d, d.file
    ensures old(d.file.trace) <= d.file.trace && TraceSafe(old(d.file.cur), vh, d.file.trace, |old(d.file.trace)|)
    ensures forall k :: |old(d.file.trace)| <= k < |d.file.trace| ==>
      MarkTells(old(d.file.cur.blocks), d.file.cur.blocks, d.file.trace[k])
    ensures MarkTells(old(d.file.cur.blocks), d.file.cur.blocks, Snap(d.file.cur, []))
    ensures |d.file.cur.blocks| <= PeakBlocks(old(d.file.cur), vh)
    ensures Valid(d.file.cur) && d.file.cur == d.file.dur && d.file.log == []
    ensures !d.file.cur.hdr.inUse && d.file.cur.hdr.SameLayout(vh) && ShowsOld(old(d.file.cur), vh, d.file.cur)
    ensures SnapSafe(old(d.file.cur), vh, Snap(d.file.cur, []))
    ensures d.file.cur.hdr.flags == EmptyFlags(|d.file.cur.blocks|, d.file.cur.hdr.firstBlock)
  {
    ghost var img0 := d.file.cur;
    MarkAndGrow(d, newSize, vh);
    ghost var h', g, t2 := d.file.cur.hdr, d.file.dur, d.file.trace;
    MarkedValid(img0, Apply(img0, InUseAt(true)));
    ClearSafe(img0, Apply(img0, InUseAt(true)), vh, g, h');
    d.ChangeState(false);
    assert [HeaderAt(h')] + [InUseAt(false)] == [HeaderAt(h'), InUseAt(false)];
    assert d.file.trace == t2 + [Snap(g, [HeaderAt(h'), InUseAt(false)]), Snap(g.(hdr := h'.(inUse := false)), [])];
    MarksTell(img0.blocks, g, h', |old(d.file.trace)|, t2, d.file.trace);
  }

  /** The in-use mark over the whole trace: `g` is final but for its header. */
  lemma MarksTell(blocks: seq<Block>, g: Img, h': Header, from: nat, t: seq<Snap>, t': seq<Snap>)
    requires from <= |t| && WellSized(g) && h'.blocksize == g.hdr.blocksize
    requires t' == t + [Snap(g, [HeaderAt(h'), InUseAt(false)]), Snap(g.(hdr := h'.(inUse := false)), [])]
    requires forall k :: from <= k < |t| ==> Watched(blocks, t[k])
    ensures forall k :: from <= k < |t'| ==> MarkTells(blocks, g.blocks, t'[k])
    ensures MarkTells(blocks, g.blocks, Snap(g.(hdr := h'.(inUse := false)), []))
  {
    WatchedTells(blocks, g.blocks, Snap(g.(hdr := h'.(inUse := false)), []));
    forall k | from <= k < |t'| ensures MarkTells(blocks, g.blocks, t'[k]) {
      WatchedTells(blocks, g.blocks, t'[k]);
    }
  }

  lemma MarkTrace(img0: Img, img1: Img, h: Header, t0: seq<Snap>, t1: seq<Snap>)
    requires !img0.hdr.inUse && Valid(img0) && img1 == Apply(img0, InUseAt(true))
    requires t1 == t0 + [Snap(img0, [InUseAt(true)]), Snap(img1, [])]
    ensures TraceSafe(img0, h, t1, |t0|)
    ensures forall k :: |t0| <= k < |t1| ==> Watched(img0.blocks, t1[k])
  {
    MarkSafe(img0, h, t1[|t0|]);
    MarkSafe(img0, h, t1[|t0| + 1]);
  }

  lemma GrowTrace(img0: Img, img1: Img, h: Header, t0: seq<Snap>, t1: seq<Snap>, t2: seq<Snap>)
    requires !img0.hdr.inUse && Valid(img0) && img1 == Apply(img0, InUseAt(true))
    requires t0 <= t1 <= t2 && TraceSafe(img0, h, t1, |t0|) && TraceSafe(img1, h, t2, |t1|)
    requires forall k :: |t0| <= k < |t1| ==> Watched(img0.blocks, t1[k])
    ensures TraceSafe(img0, h, t2, |t0|) && forall k :: |t0| <= k < |t2| ==> Watched(img0.blocks, t2[k])
  {
    forall k | |t0| <= k < |t2| ensures SnapSafe(img0, h, t2[k]) && Watched(img0.blocks, t2[k]) {
      if k < |t1| {
        assert t2[k] == t1[k];
      } else {
        SafeForMarked(img0, img1, h, t2[k]);
      }
    }
  }

  /** `ploop_grow_delta_offline`: a crash at any step leaves the old device readable under whichever
      header is on the disk, with the old or the final clusters unless the in-use mark is set, and success leaves a
      clean, durable, larger device. */
  method GrowDeltaOffline(f: File, newSize: nat) returns (r: Outcome)
    requires f.cur == f.dur && f.log == [] && CanGrow(f.cur, newSize)
    modifies f
    ensures r == OpenFailed <==> old(f.cur.hdr.inUse)
    ensures !old(f.cur.hdr.inUse) ==>
      (r == BadParam <==> newSize % old(f.cur.hdr.blocksize) != 0 || newSize < old(f.cur.hdr.SizeInSectors()))
    ensures r != Done ==> unchanged(f)
    ensures old(f.trace) <= f.trace
    ensures TraceSafe(old(f.cur), GeneratePvdHeader(newSize, old(f.cur.hdr.blocksize), old(f.cur.hdr.version)), f.trace,
      |old(f.trace)|)
    ensures r == Done ==>
      && Valid(f.cur) && f.cur == f.dur && f.log == [] && !f.cur.hdr.inUse
      && f.cur.hdr.SizeInSectors() == newSize && ShowsOld(old(f.cur), f.cur.hdr, f.cur)
      && f.cur.hdr.L1() == NeededL1(f.cur.hdr.L2(), f.cur.hdr.blocksize)
    ensures forall k :: |old(f.trace)| <= k < |f.trace| ==> MarkTells(old(f.cur.blocks), f.cur.blocks, f.trace[k])
    ensures r == Done && newSize == old(f.cur.hdr.SizeInSectors()) ==> unchanged(f)
    ensures r == Done ==> |f.cur.blocks| <= PeakBlocks(old(f.cur), f.cur.hdr)
    ensures r == Done && newSize != old(f.cur.hdr.SizeInSectors()) ==>
      && f.cur.hdr.firstBlock == f.cur.hdr.L1() * f.cur.hdr.blocksize
      && f.cur.hdr.blocksize == old(f.cur.hdr.blocksize) && f.cur.hdr.version == old(f.cur.hdr.version)
      && f.cur.hdr.flags == EmptyFlags(|f.cur.blocks|, f.cur.hdr.firstBlock)
  {
    if f.cur.hdr.inUse { return OpenFailed; }
    HeaderNonEmpty(f.cur.hdr.L2(), f.cur.hdr.blocksize);
    var d := new Delta(f);
    if newSize % d.blocksize != 0 { return BadParam; }
    var oldSize := f.cur.hdr.SizeInSectors();
    var vh := GeneratePvdHeader(newSize, d.blocksize, d.version);
    ExactSize(newSize, d.blocksize, d.version);
    if vh.SizeInSectors() == oldSize { return Done; }
    if vh.SizeInSectors() < oldSize { return BadParam; }
    GrowsLarger(f.cur, newSize, vh);
    TightIndex(f.cur, newSize, vh);
    GrowMarked(d, newSize, vh);
    f.Fsync();
    r := Done;
  }

  lemma HeaderNonEmpty(m: nat, bs: nat)
    requires bs > 0
    ensures NeededL1(m, bs) > 0
  {
    var q := NeededBounds(m, bs);
  }

  lemma ExactSize(newSize: nat, bs: nat, ver: Version)
    requires bs > 0 && newSize % bs == 0 && SizeFits(newSize, bs, ver)
    ensures GeneratePvdHeader(newSize, bs, ver).SizeInSectors() == newSize
  {
    var q := newSize / bs;
    assert newSize == q * bs;
    DivUnique(newSize + bs - 1, bs, q, bs - 1);
    SplitSize(newSize);
  }

  lemma MarkedValid(img0: Img, img1: Img)
    requires Valid(img0) && img1.blocks == img0.blocks && img1.hdr.SameLayout(img0.hdr)
    ensures Valid(img1)
    ensures forall h :: (Larger(img0.hdr, h) ==> Larger(img1.hdr, h)) && PeakBlocks(img1, h) == PeakBlocks(img0, h)
  {
    assert img1.hdr.L1() == img0.hdr.L1() && img1.hdr.L2() == img0.hdr.L2() && img1.hdr.Words() == img0.hdr.Words();
    assert forall v: nat :: Slot(img1, v) == Slot(img0, v);
  }

  /** The mark `grow_delta` puts on an image without data compares the file size in bytes divided by the blocksize with
      a number of sectors. For a file of `blocks` clusters with an index of `l1` it is right exactly if the file is the
      index and clusters have 512 sectors or more, or the file is longer by more than clusters exceed 512 sectors. */
  lemma EmptyMarkOf(l1: nat, blocks: nat, bs: nat)
    requires bs > 0 && 0 < l1 <= blocks
    ensures EmptyMarkRight(l1, blocks, bs) <==> if blocks == l1 then bs >= 512 else l1 * bs < blocks * 512
  {
    if bs < 512 { MulMono(bs + 1, 512, l1); } else { MulMono(512, bs, l1); }
  }

  /** So it is right for all file lengths, with an index below 2^32 bytes, exactly when a cluster has 512 sectors. */
  lemma EmptyMarkExact(bs: nat)
    requires ValidBlocksize(bs)
    ensures bs == 512 <==>
      forall l1: nat, blocks: nat :: 0 < l1 <= blocks && l1 * bs * 512 < U32_LIMIT ==> EmptyMarkRight(l1, blocks, bs)
  {
    if bs < 512 {
      assert !EmptyMarkRight(1, 1, bs);
    } else if 512 < bs < 1024 {
      assert !EmptyMarkRight(512, 513, bs);
    } else if bs >= 1024 {
      assert !EmptyMarkRight(1, 2, bs);
    }
  }

  predicate EmptyMarkRight(l1: nat, blocks: nat, bs: nat) {
    EmptyFlags(blocks, l1 * bs) == CIF_EMPTY <==> blocks == l1
  }
}
