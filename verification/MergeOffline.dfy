/** `merge_image` without a device: open, grow the lower delta, merge, flush, unmark. */
module MergeOffline {
  import opened Image
  import opened Disk
  import opened Geometry
  import opened DeltaFile
  import opened Grow
  import opened GrowOffline
  import opened Stack
  import opened Merge
  import opened MergeImage

  /** First index word of cluster `i` that belongs to a slot. */
  function FirstWord(i: nat): nat { if i == 0 then MAP_OFFSET else 0 }

  /** What both loops keep. */
  ghost predicate Progress(da: DeltaArray, d: Delta, lower: Img, out0: Img, before: seq<Snap>, p: nat)
    reads d, d.file
  {
    && Mergeable(da.imgs, out0) && Storing(d) && Undisturbed(da.imgs, lower, out0, d.file, before)
    && MAP_OFFSET <= p && MergedTo(da.imgs, out0, d.Effective(), p)
    && d.allocHead + MAP_OFFSET <= |out0.blocks| + p
    && Fits(|out0.blocks| + out0.hdr.L2(), d.blocksize, d.version)
  }

  /** Merges index position `p`, word `k` of index cluster `i`, which starts at position `start`. */
  method MergeWord(da: DeltaArray, d: Delta, i: nat, k: nat, ghost start: nat, ghost p: nat, ghost lower: Img,
        ghost out0: Img, ghost before: seq<Snap>)
    requires Progress(da, d, lower, out0, before, p) && da.Caching(i) && da.cache[0] == i
    requires k < out0.hdr.Words() && start == i * out0.hdr.Words() && p == start + k && p < out0.hdr.L2() + MAP_OFFSET
    requires k >= FirstWord(i)
    modifies da, d, d.file
    ensures Progress(da, d, lower, out0, before, p + 1) && da.Caching(i) && da.cache[0] == i
  {
    SlotAt(i, k, out0.hdr.Words());
    FitsMono(d.allocHead, |out0.blocks| + out0.hdr.L2(), d.blocksize, d.version);
    MergeSlot(da, d, i, k, p - MAP_OFFSET, lower, out0, before);
  }

  /** Merges the words of index cluster `i` from `kStart` up to `kEnd`. */
  method MergeWords(da: DeltaArray, d: Delta, i: nat, kStart: nat, kEnd: nat, ghost start: nat, ghost lower: Img,
        ghost out0: Img, ghost before: seq<Snap>)
    requires Progress(da, d, lower, out0, before, start + kStart) && da.Caching(i) && da.cache[0] == i
    requires start == i * out0.hdr.Words() && FirstWord(i) <= kStart <= kEnd <= out0.hdr.Words()
    requires start + kEnd <= out0.hdr.L2() + MAP_OFFSET
    modifies da, d, d.file
    ensures Progress(da, d, lower, out0, before, start + kEnd) && da.Caching(i) && da.cache[0] == i
  {
    var k := kStart;
    while k < kEnd
      invariant kStart <= k <= kEnd && da.Caching(i) && da.cache[0] == i
      invariant Progress(da, d, lower, out0, before, start + k)
    {
      MergeWord(da, d, i, k, start, start + k, lower, out0, before);
      k := k + 1;
    }
  }

  /** Merges index cluster `i`, whose first word is at position `start`. */
  method MergeTable(da: DeltaArray, d: Delta, i: nat, iEnd: nat, start: nat, ghost lower: Img, ghost out0: Img,
        ghost before: seq<Snap>)
    requires |da.l2| == |da.cache| == |da.imgs| && Mergeable(da.imgs, out0)
    requires i < iEnd && i < da.imgs[0].hdr.L1() && start == i * out0.hdr.Words() && start < out0.hdr.L2() + MAP_OFFSET
    requires if i == iEnd - 1 then out0.hdr.L2() + MAP_OFFSET <= start + out0.hdr.Words()
             else start + out0.hdr.Words() <= out0.hdr.L2() + MAP_OFFSET
    requires Progress(da, d, lower, out0, before, start + FirstWord(i)) && FirstWord(i) <= out0.hdr.Words()
    modifies da, d, d.file
    ensures |da.l2| == |da.cache| == |da.imgs|
    ensures Progress(da, d, lower, out0, before,
      if i == iEnd - 1 then out0.hdr.L2() + MAP_OFFSET else start + out0.hdr.Words())
  {
    assert d.blocksize * 128 == out0.hdr.Words();
    da.LoadTop(i);
    var kEnd := d.blocksize * 128;
    if i == iEnd - 1 { kEnd := d.l2Size + MAP_OFFSET - start; }
    MergeWords(da, d, i, FirstWord(i), kEnd, start, lower, out0, before);
  }

  /** Number of index clusters that hold slots. */
  function Tables(l2: nat, n: nat): nat
    requires n > 0
  {
    (l2 + MAP_OFFSET + n - 1) / n
  }

  lemma FirstPosition(l2: nat, n: nat)
    requires n > MAP_OFFSET
    ensures Position(0, Tables(l2, n), n, l2) == MAP_OFFSET
  {
    TableCount(l2, n, Tables(l2, n));
  }

  lemma TableCount(l2: nat, n: nat, iEnd: nat)
    requires n > MAP_OFFSET && iEnd == Tables(l2, n)
    ensures iEnd > 0 && iEnd * n >= l2 + MAP_OFFSET && (iEnd - 1) * n < l2 + MAP_OFFSET
  {
    CeilBounds(l2 + MAP_OFFSET, n);
  }

  /** Index position the merge has reached before index cluster `i`. */
  function Position(i: nat, iEnd: nat, n: nat, l2: nat): nat {
    if i >= iEnd then l2 + MAP_OFFSET else i * n + FirstWord(i)
  }

  lemma TableBounds(i: nat, iEnd: nat, n: nat, l2: nat)
    requires n > MAP_OFFSET && i < iEnd && iEnd * n >= l2 + MAP_OFFSET && (iEnd - 1) * n < l2 + MAP_OFFSET
    ensures i * n < l2 + MAP_OFFSET
    ensures if i == iEnd - 1 then l2 + MAP_OFFSET <= i * n + n else i * n + n <= l2 + MAP_OFFSET
    ensures Position(i + 1, iEnd, n, l2) == if i == iEnd - 1 then l2 + MAP_OFFSET else i * n + n
  {
    assert (i + 1) * n == i * n + n;
    MulMono(i, iEnd - 1, n);
    MulMono(i + 1, iEnd - 1, n);
  }

  /** The merge loop over all index clusters of the top delta. */
  method MergeLoop(da: DeltaArray, d: Delta, ghost lower: Img, ghost out0: Img, ghost before: seq<Snap>)
    requires |da.l2| == |da.cache| == |da.imgs|
    requires Progress(da, d, lower, out0, before, MAP_OFFSET)
    modifies da, d, d.file
    ensures Progress(da, d, lower, out0, before, out0.hdr.L2() + MAP_OFFSET)
  {
    var n := d.blocksize * 128;
    var iEnd := Tables(da.imgs[0].hdr.L2(), n);
    FirstPosition(out0.hdr.L2(), n);
    var i := 0;
    while i < iEnd
      invariant 0 <= i <= iEnd && |da.l2| == |da.cache| == |da.imgs|
      invariant Progress(da, d, lower, out0, before, Position(i, iEnd, n, out0.hdr.L2()))
    {
      MergeTableAt(da, d, i, iEnd, n, lower, out0, before);
      i := i + 1;
    }
  }

  method MergeTableAt(da: DeltaArray, d: Delta, i: nat, iEnd: nat, n: nat, ghost lower: Img, ghost out0: Img,
        ghost before: seq<Snap>)
    requires |da.l2| == |da.cache| == |da.imgs| && n == out0.hdr.Words() && n > 0
    requires i < iEnd == Tables(out0.hdr.L2(), n)
    requires Progress(da, d, lower, out0, before, Position(i, iEnd, n, out0.hdr.L2()))
    modifies da, d, d.file
    ensures |da.l2| == |da.cache| == |da.imgs|
    ensures Progress(da, d, lower, out0, before, Position(i + 1, iEnd, n, out0.hdr.L2()))
  {
    TableCount(out0.hdr.L2(), n, iEnd);
    TableBounds(i, iEnd, n, out0.hdr.L2());
    TableInIndex(da.imgs[0], i);
    MergeTable(da, d, i, iEnd, i * n, lower, out0, before);
  }

  /** An index cluster that starts before the last slot lies inside the index. */
  lemma TableInIndex(top: Img, i: nat)
    requires Valid(top) && i * top.hdr.Words() < top.hdr.L2() + MAP_OFFSET && top.hdr.L1() > 0
    ensures i < top.hdr.L1()
  {
    var n := top.hdr.Words();
    if i > 0 {
      MulMono(1, i, n);
      SlotAt(i, 0, n);
      assert SlotBlock(i * n - MAP_OFFSET, n) < top.hdr.L1();
    }
  }

  // ---------- the whole operation ----------

  lemma GrowIsMergeSafe(uppers: seq<Img>, lower: Img, h: Header, s: Snap)
    requires Valid(lower) && lower.hdr.L2() <= h.L2() && SnapSafe(lower, h, s) && HasGrown(uppers, h)
    ensures MergeSafe(uppers, lower, s)
  {
    forall c | Possible(s, c) ensures SameStack(uppers, lower, c) && Reopens(uppers, lower, c) {
      forall v: nat ensures StackRead(uppers + [c], v) == StackRead(uppers + [lower], v) {
        StackAppend(uppers, c, v);
        StackAppend(uppers, lower, v);
        ShownBelow(lower, h, c, v);
      }
    }
  }

  lemma ShownBelow(lower: Img, h: Header, c: Img, v: nat)
    requires Valid(lower) && lower.hdr.L2() <= h.L2() && ShowsOld(lower, h, c)
    ensures StackRead([c], v) == StackRead([lower], v)
  {
    assert StackRead([c][1..], v) == Hole && StackRead([lower][1..], v) == Hole;
  }

  lemma GrowTraceSafe(uppers: seq<Img>, lower: Img, h: Header, trace: seq<Snap>, before: seq<Snap>)
    requires Valid(lower) && lower.hdr.L2() <= h.L2() && HasGrown(uppers, h) && before <= trace
    requires TraceSafe(lower, h, trace, |before|)
    requires forall k :: |before| <= k < |trace| ==> Watched(lower.blocks, trace[k])
    ensures SafeSince(uppers, lower, trace, before)
  {
    forall k | |before| <= k < |trace| ensures MergeSafe(uppers, lower, trace[k]) {
      GrowIsMergeSafe(uppers, lower, h, trace[k]);
    }
  }

  /** After growing, the merge can start: nothing is merged and nothing is disturbed. */
  lemma StartState(uppers: seq<Img>, lower: Img, h: Header, cur: Img, dur: Img)
    requires Valid(lower) && Valid(cur) && ShowsOld(lower, h, cur) && cur.hdr.SameLayout(h) && lower.hdr.L2() <= h.L2()
    requires h.blocksize == lower.hdr.blocksize && h.version == lower.hdr.version
    requires dur.blocks == cur.blocks && dur.hdr.SameLayout(lower.hdr)
    ensures Extends(lower, cur) && MergedTo(uppers, cur, cur, MAP_OFFSET)
    ensures Keeps(uppers, cur, dur) && KeepsLog(uppers, cur, [HeaderAt(cur.hdr)])
  {
    assert cur.hdr.L2() == h.L2() && dur.hdr.Words() == cur.hdr.Words();
    assert forall v: nat :: Slot(dur, v) == Slot(cur, v);
  }

  /** Deltas `images` (topmost first) over `lower`, made by snapshots of one device that only grew. */
  ghost predicate CanMerge(images: seq<Img>, lower: Img) {
    && |images| > 0 && Monotonic(images)
    && (forall j :: 0 <= j < |images| ==> Valid(images[j]) && images[j].hdr.L1() > 0)
    && var top := images[0].hdr;
       && lower.hdr.blocksize == top.blocksize && lower.hdr.version == top.version
       && CanGrow(lower, top.SizeInSectors()) && lower.hdr.SizeInSectors() <= top.SizeInSectors()
       && top.SizeInSectors() % top.blocksize == 0
       && Fits(PeakBlocks(lower, GeneratePvdHeader(top.SizeInSectors(), top.blocksize, top.version)) + top.L2(),
         top.blocksize, top.version)
  }

  datatype MergeResult = Merged | CannotOpen | FormatMismatch

  /** The first `n` deltas are not in use and of one format. */
  predicate OpenUpTo(images: seq<Img>, n: nat)
    requires n <= |images|
  {
    forall j :: 0 <= j < n ==> !images[j].hdr.inUse && SameFormat(images[0], images[j])
  }

  /** The first delta that is in use, or not of the format of those before it, is in use. */
  predicate InUseFirst(images: seq<Img>) {
    exists j :: 0 <= j < |images| && OpenUpTo(images, j) && images[j].hdr.inUse
  }

  /** The checks made while the upper deltas are opened. */
  method OpenDeltas(images: seq<Img>) returns (r: MergeResult)
    requires |images| > 0
    ensures r == Merged <==> forall j :: 0 <= j < |images| ==> !images[j].hdr.inUse && SameFormat(images[0], images[j])
    ensures r == CannotOpen <==> InUseFirst(images)
  {
    var i := 0;
    while i < |images|
      invariant 0 <= i <= |images|
      invariant OpenUpTo(images, i)
    {
      if images[i].hdr.inUse { return CannotOpen; }
      if i != 0 && images[i].hdr.blocksize != images[i - 1].hdr.blocksize { return FormatMismatch; }
      if i != 0 && images[i].hdr.version != images[i - 1].hdr.version { return FormatMismatch; }
      i := i + 1;
    }
    r := Merged;
  }

  predicate SameFormat(a: Img, b: Img) {
    a.hdr.blocksize == b.hdr.blocksize && a.hdr.version == b.hdr.version
  }

  /** Makes durable what the loop left in the cache. */
  method FlushAll(d: Delta, ghost uppers: seq<Img>, ghost lower: Img, ghost out0: Img, ghost before: seq<Snap>)
    requires Storing(d) && Undisturbed(uppers, lower, out0, d.file, before) && Keeps(uppers, out0, d.Effective())
    requires Valid(d.Effective())
    modifies d.file
    ensures d.file.cur == d.file.dur == old(d.Effective()) && d.file.log == []
    ensures Undisturbed(uppers, lower, out0, d.file, before)
  {
    SteadySync(uppers, lower, out0, d.file.cur, d.file.dur, d.file.log);
    d.file.Fsync();
    if d.l2Dirty { FlushTable(d, uppers, lower, out0, before); }
    assert d.file.cur.blocks == old(d.Effective()).blocks;
  }

  /** Flushes what the loop left in the cache, then clears the in-use mark. */
  method Finish(d: Delta, ghost uppers: seq<Img>, ghost lower: Img, ghost out0: Img, ghost before: seq<Snap>)
    requires Storing(d) && Undisturbed(uppers, lower, out0, d.file, before) && Keeps(uppers, out0, d.Effective())
    requires Valid(d.Effective())
    modifies d, d.file
    ensures d.file.cur == Apply(old(d.Effective()), InUseAt(false)) && d.file.cur == d.file.dur && d.file.log == []
    ensures before <= d.file.trace
    ensures forall k :: |before| <= k < |d.file.trace| ==> MergeSafe(uppers, lower, d.file.trace[k])
    ensures forall k :: |before| <= k < |d.file.trace| ==>
      MarkTells(lower.blocks, d.file.cur.blocks, d.file.trace[k])
  {
    FlushAll(d, uppers, lower, out0, before);
    ghost var e, t := d.file.cur, d.file.trace;
    SteadyMark(uppers, lower, out0, e);
    assert d.file.log + [InUseAt(false)] == [InUseAt(false)];
    d.file.Write(InUseAt(false));
    d.file.Fsync();
    assert d.file.trace == t + [Snap(e, [InUseAt(false)]), Snap(d.file.cur, [])];
    forall k | |before| <= k < |d.file.trace| ensures MarkTells(lower.blocks, e.blocks, d.file.trace[k]) {
      WatchedTells(lower.blocks, e.blocks, d.file.trace[k]);
    }
  }

  /** Opens the lower delta, marks it, and grows it to the size of the top delta. */
  method Prepare(images: seq<Img>, d: Delta)
    requires !d.file.cur.hdr.inUse && CanMerge(images, d.file.cur) && ValidStack(images)
    requires d.Synced() && d.l2Cache == -1 && d.file.cur == d.file.dur && d.file.log == []
    modifies d, d.file
    ensures Mergeable(images, d.file.cur) && Storing(d) && d.Effective() == d.file.cur
    ensures Undisturbed(images, old(d.file.cur), d.file.cur, d.file, old(d.file.trace))
    ensures MergedTo(images, d.file.cur, d.file.cur, MAP_OFFSET)
    ensures Fits(|d.file.cur.blocks| + d.file.cur.hdr.L2(), d.blocksize, d.version)
    ensures |d.file.cur.blocks| <= PeakBlocks(old(d.file.cur), d.file.cur.hdr) && d.file.cur.hdr.flags <= CIF_EMPTY
  {
    ghost var lower, before := d.file.cur, d.file.trace;
    var size := images[0].hdr.SizeInSectors();
    var vh := GeneratePvdHeader(size, d.blocksize, d.version);
    ExactSize(size, d.blocksize, d.version);
    GrowsLarger(lower, size, vh);
    FitsMono(PeakBlocks(lower, vh), PeakBlocks(lower, vh) + images[0].hdr.L2(), d.blocksize, d.version);
    MarkAndGrow(d, size, vh);
    FitsMono(|d.file.cur.blocks| + vh.L2(), PeakBlocks(lower, vh) + images[0].hdr.L2(), d.blocksize, d.version);
    StartState(images, lower, vh, d.file.cur, d.file.dur);
    GrowTraceSafe(images, lower, vh, d.file.trace, before);
  }

  lemma GrownIsTight(images: seq<Img>, lower: Img, h: Header)
    requires CanMerge(images, lower) && HasGrown(images, h)
    ensures h.L1() == NeededL1(h.L2(), h.blocksize) && h.SizeInSectors() == images[0].hdr.SizeInSectors()
    ensures h.firstBlock == h.L1() * h.blocksize
  {
    var size := images[0].hdr.SizeInSectors();
    var vh := GeneratePvdHeader(size, lower.hdr.blocksize, lower.hdr.version);
    ExactSize(size, lower.hdr.blocksize, lower.hdr.version);
    TightIndex(lower, size, vh);
  }

  /** The room in index numbers that merging into `c` may need. */
  predicate RoomToMerge(images: seq<Img>, c: Img)
    requires |images| > 0 && images[0].hdr.blocksize > 0
  {
    var top := images[0].hdr;
    Fits(PeakBlocks(c, GeneratePvdHeader(top.SizeInSectors(), top.blocksize, top.version)) + top.L2(), top.blocksize,
      top.version)
  }

  /** Whatever an interrupted merge left can be merged into again, once its in-use mark is dropped, and the stack
      still reads as at first; unless a file that the crash made longer has become too long. */
  lemma MergesAgain(images: seq<Img>, lower: Img, s: Snap, c: Img)
    requires CanMerge(images, lower) && MergeSafe(images, lower, s) && Possible(s, c)
    requires images[0].hdr.blocksize > 0 && RoomToMerge(images, c)
    ensures CanMerge(images, Unmarked(c)) && SameStack(images, lower, Unmarked(c)) && !Unmarked(c).hdr.inUse
  {
    var u, top := Unmarked(c), images[0].hdr;
    if HasGrown(images, c.hdr) { GrownIsTight(images, lower, c.hdr); }
    MarkedValid(c, u);
    CanGrowAgain(lower, top.SizeInSectors(), u, top.L2());
    forall v: nat ensures StackRead(images + [u], v) == StackRead(images + [lower], v) {
      ReadExtended(c, u, v);
      StackAppend(images, c, v);
      StackAppend(images, u, v);
      assert [c][1..] == [] && [u][1..] == [];
    }
  }

  lemma CanGrowAgain(lower: Img, size: nat, u: Img, room: nat)
    requires CanGrow(lower, size) && Valid(u) && u.hdr.blocksize == lower.hdr.blocksize
    requires u.hdr.version == lower.hdr.version
    requires u.hdr.L1() == NeededL1(u.hdr.L2(), u.hdr.blocksize)
    requires Fits(PeakBlocks(u, GeneratePvdHeader(size, u.hdr.blocksize, u.hdr.version)) + room, u.hdr.blocksize,
      u.hdr.version)
    ensures CanGrow(u, size)
  {
    var h := GeneratePvdHeader(size, u.hdr.blocksize, u.hdr.version);
    FitsMono(PeakBlocks(u, h), PeakBlocks(u, h) + room, u.hdr.blocksize, u.hdr.version);
  }

  /** Growing, merging and finishing, once everything is open. */
  method MergeOpened(images: seq<Img>, d: Delta)
    requires !d.file.cur.hdr.inUse && CanMerge(images, d.file.cur) && ValidStack(images)
    requires d.Synced() && d.l2Cache == -1 && d.file.cur == d.file.dur && d.file.log == []
    modifies d, d.file
    ensures old(d.file.trace) <= d.file.trace
    ensures forall k :: |old(d.file.trace)| <= k < |d.file.trace| ==>
      MergeSafe(images, old(d.file.cur), d.file.trace[k]) &&
      MarkTells(old(d.file.cur.blocks), d.file.cur.blocks, d.file.trace[k])
    ensures d.file.cur == d.file.dur && d.file.log == [] && MergeDone(images, old(d.file.cur), d.file.cur)
  {
    ghost var lower, before := d.file.cur, d.file.trace;
    var da := new DeltaArray(images);
    Prepare(images, d);
    ghost var out0 := d.file.cur;
    MergeLoop(da, d, lower, out0, before);
    ghost var e := d.Effective();
    Finish(d, images, lower, out0, before);
    GrownIsTight(images, lower, out0.hdr);
    MergedReads(images, lower, out0, e, d.file.cur);
  }

  /** The lower delta alone reads what the whole stack read. It has the size of the topmost and an index as short as
      it can be, and each cluster of the device cost one of the file at most. */
  ghost predicate MergeDone(images: seq<Img>, lower: Img, out: Img)
    requires |images| > 0
  {
    && Valid(out) && !out.hdr.inUse && out.hdr.L2() == images[0].hdr.L2()
    && HasGrown(images, out.hdr) && out.hdr.SizeInSectors() == images[0].hdr.SizeInSectors()
    && out.hdr.L1() == NeededL1(out.hdr.L2(), out.hdr.blocksize)
    && out.hdr.firstBlock == out.hdr.L1() * out.hdr.blocksize && out.hdr.flags <= CIF_EMPTY
    && |out.blocks| <= PeakBlocks(lower, out.hdr) + out.hdr.L2()
    && forall v: nat :: v < out.hdr.L2() ==> Read(out, v) == StackRead(images + [lower], v)
  }

  /** `merge_image`, offline, into the existing delta below `images`. At every step a crash leaves a
      stack that reads as before, and an image whose clusters are the old or the final ones unless it has the in-use
      mark; at the end the lower delta alone reads what the whole stack read. */
  method MergeImageOffline(images: seq<Img>, f: File) returns (r: MergeResult)
    requires CanMerge(images, f.cur) && f.cur == f.dur && f.log == []
    modifies f
    ensures r == Merged <==> !old(f.cur.hdr.inUse) && forall j :: 0 <= j < |images| ==>
      !images[j].hdr.inUse && SameFormat(images[0], images[j])
    ensures r == CannotOpen <==> InUseFirst(images) || (OpenUpTo(images, |images|) && old(f.cur.hdr.inUse))
    ensures r != Merged ==> unchanged(f)
    ensures old(f.trace) <= f.trace
    ensures forall k :: |old(f.trace)| <= k < |f.trace| ==> MergeSafe(images, old(f.cur), f.trace[k])
    ensures forall k :: |old(f.trace)| <= k < |f.trace| ==> MarkTells(old(f.cur.blocks), f.cur.blocks, f.trace[k])
    ensures r == Merged ==> f.cur == f.dur && f.log == [] && MergeDone(images, old(f.cur), f.cur)
  {
    r := OpenDeltas(images);
    if r != Merged { return; }
    if f.cur.hdr.inUse { return CannotOpen; }
    HeaderNonEmpty(f.cur.hdr.L2(), f.cur.hdr.blocksize);
    var d := new Delta(f);
    MergeOpened(images, d);
  }

  lemma MergedReads(uppers: seq<Img>, lower: Img, out0: Img, e: Img, cur: Img)
    requires Extends(lower, out0) && Mergeable(uppers, out0) && MergedTo(uppers, out0, e, out0.hdr.L2() + MAP_OFFSET)
    requires cur == Apply(e, InUseAt(false)) && HasGrown(uppers, out0.hdr)
    requires out0.hdr.L1() == NeededL1(out0.hdr.L2(), out0.hdr.blocksize)
    requires out0.hdr.firstBlock == out0.hdr.L1() * out0.hdr.blocksize && out0.hdr.flags <= CIF_EMPTY
    requires out0.hdr.SizeInSectors() == uppers[0].hdr.SizeInSectors()
    requires |e.blocks| <= PeakBlocks(lower, out0.hdr) + out0.hdr.L2()
    ensures MergeDone(uppers, lower, cur)
  {
    MarkedValid(e, cur);
    forall v: nat | v < out0.hdr.L2() ensures Read(cur, v) == StackRead(uppers + [lower], v) {
      ReadExtended(e, cur, v);
      StackAppend(uppers, lower, v);
      ReadEntry(lower, v);
      assert StackRead([lower][1..], v) == Hole;
    }
  }
}
