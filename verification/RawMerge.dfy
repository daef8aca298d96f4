/** `merge_image` offline into a raw base. */
module RawMerge {
  import opened Image
  import opened Stack
  import opened MergeImage
  import opened MergeOffline
  import opened RawImage

  /** One mebibyte. */
  const DEF_CLUSTER: nat := 0x4_0000

  /** The cluster word `q` lies in. */
  function Cluster(q: nat, n: nat): nat requires n > 0 { q / n }

  /** Word `q` of the device: from the deltas above if they have its cluster, else from the raw file. */
  function StackWord(uppers: seq<Img>, f: Content, n: nat, q: nat): U32
    requires n > 0
  {
    var l := StackRead(uppers, Cluster(q, n));
    if l.Data? then DeviceWord(l, q % n) else Word(f, q)
  }

  /** The write changes nothing that shows through the deltas above. */
  ghost predicate Harmless(uppers: seq<Img>, lower: Content, n: nat, w: RawWrite)
    requires n > 0
  {
    forall q: nat :: w.pos <= q < w.pos + |w.words| ==>
      StackRead(uppers, Cluster(q, n)).Data? || w.words[q - w.pos] == Word(lower, q)
  }

  ghost predicate Covered(uppers: seq<Img>, lower: Content, n: nat, f: Content)
    requires n > 0
  {
    forall q: nat :: StackRead(uppers, Cluster(q, n)).Data? || Word(f, q) == Word(lower, q)
  }

  ghost predicate Undisturbing(uppers: seq<Img>, lower: Content, n: nat, s: RawState)
    requires n > 0
  {
    Covered(uppers, lower, n, s.cur) && Covered(uppers, lower, n, s.dur) && forall k :: 0 <= k < |s.log| ==>
      Harmless(uppers, lower, n, s.log[k])
  }

  /** Whatever a crash leaves, the stack reads as before. */
  ghost predicate RawSafe(uppers: seq<Img>, lower: Content, n: nat, s: RawState)
    requires n > 0
  {
    forall c, q: nat :: RawPossible(s, c) ==> StackWord(uppers, c, n, q) == StackWord(uppers, lower, n, q)
  }

  lemma UndisturbingIsSafe(uppers: seq<Img>, lower: Content, n: nat, s: RawState)
    requires n > 0 && Undisturbing(uppers, lower, n, s)
    ensures RawSafe(uppers, lower, n, s)
  {
  }

  /** The file with everything above merged into it, up to index position `p`. */
  ghost predicate RawMergedTo(uppers: seq<Img>, lower: Content, n: nat, f: Content, p: nat)
    requires n > 0
  {
    forall q: nat :: Word(f, q) == MergedWord(uppers, lower, n, q, p)
  }

  lemma InCluster(q: nat, n: nat, v: nat)
    requires n > 0
    ensures Cluster(q, n) == v <==> v * n <= q < v * n + n
    ensures Cluster(q, n) == v ==> q - v * n == q % n
  {
    if v * n <= q < v * n + n { DivUnique(q, n, v, q - v * n); }
  }

  /** What word `q` should hold when index positions below `p` are merged. */
  function MergedWord(uppers: seq<Img>, lower: Content, n: nat, q: nat, p: nat): U32
    requires n > 0
  {
    if Cluster(q, n) + MAP_OFFSET < p then StackWord(uppers, lower, n, q) else Word(lower, q)
  }

  lemma OneWord(uppers: seq<Img>, lower: Content, n: nat, q: nat, v: nat, pos: nat, data: Block)
    requires n > 0 && StackRead(uppers, v) == Data(data) && |data| == n && pos == v * n
    ensures MergedWord(uppers, lower, n, q, v + MAP_OFFSET + 1) ==
      if pos <= q < pos + n then data[q - pos] else MergedWord(uppers, lower, n, q, v + MAP_OFFSET)
  {
    InCluster(q, n, v);
  }

  lemma PutWords(f: Content, pos: nat, data: Block, g: nat -> U32, g': nat -> U32)
    requires forall q: nat :: Word(f, q) == g(q)
    requires forall q: nat :: g'(q) == if pos <= q < pos + |data| then data[q - pos] else g(q)
    ensures forall q: nat :: Word(Put(f, pos, data), q) == g'(q)
  {
  }

  lemma RawMergedStep(uppers: seq<Img>, lower: Content, n: nat, f: Content, v: nat, data: Block, pos: nat, p: nat)
    requires n > 0 && StackRead(uppers, v) == Data(data) && |data| == n && pos == v * n && p == v + MAP_OFFSET
    requires RawMergedTo(uppers, lower, n, f, p)
    ensures RawMergedTo(uppers, lower, n, Put(f, pos, data), p + 1)
  {
    var p' := p + 1;
    var g, g' := q => MergedWord(uppers, lower, n, q, p), q => MergedWord(uppers, lower, n, q, p');
    forall q: nat ensures g'(q) == if pos <= q < pos + |data| then data[q - pos] else g(q) {
      OneWord(uppers, lower, n, q, v, pos, data);
    }
    PutWords(f, pos, data, g, g');
    forall q: nat ensures Word(Put(f, pos, data), q) == MergedWord(uppers, lower, n, q, p') {
      assert g'(q) == MergedWord(uppers, lower, n, q, p');
    }
  }

  lemma WordHarmless(uppers: seq<Img>, lower: Content, n: nat, v: nat, data: Block)
    requires n > 0 && StackRead(uppers, v) == Data(data) && |data| == n
    ensures Harmless(uppers, lower, n, RawWrite(v * n, data))
  {
    var pos := v * n;
    forall q: nat | pos <= q < pos + n ensures StackRead(uppers, Cluster(q, n)).Data? { InCluster(q, n, v); }
  }

  /** No delta has a cluster behind the end of the topmost. */
  lemma {:induction false} NothingBeyond(uppers: seq<Img>, v: nat)
    requires ValidStack(uppers) && forall j :: 0 <= j < |uppers| ==> uppers[j].hdr.L2() <= v
    ensures StackRead(uppers, v) == Hole
  {
    if uppers != [] { NothingBeyond(uppers[1..], v); }
  }

  lemma AllMerged(uppers: seq<Img>, lower: Content, n: nat, f: Content, p: nat)
    requires n > 0 && ValidStack(uppers) && Monotonic(uppers) && |uppers| > 0 && p == uppers[0].hdr.L2() + MAP_OFFSET
    requires RawMergedTo(uppers, lower, n, f, p)
    ensures forall q: nat :: Word(f, q) == StackWord(uppers, lower, n, q)
  {
    forall q: nat ensures Word(f, q) == StackWord(uppers, lower, n, q) {
      if Cluster(q, n) + MAP_OFFSET >= p { NothingBeyond(uppers, Cluster(q, n)); }
    }
  }

  /** The deltas above the raw file. */
  ghost predicate RawMergeable(uppers: seq<Img>) {
    |uppers| > 0 && ValidStack(uppers) && Monotonic(uppers) && uppers[0].hdr.L1() > 0
  }

  /** What is kept from one step to the next. */
  ghost predicate Steady(uppers: seq<Img>, lower: Content, n: nat, s: RawState, before: seq<RawState>,
        trace: seq<RawState>)
    requires n > 0
  {
    && Undisturbing(uppers, lower, n, s) && before <= trace
    && forall k :: |before| <= k < |trace| ==> RawSafe(uppers, lower, n, trace[k])
  }

  lemma SteadyWrite(uppers: seq<Img>, lower: Content, n: nat, s: RawState, before: seq<RawState>, trace: seq<RawState>,
        w: RawWrite)
    requires n > 0 && Steady(uppers, lower, n, s, before, trace) && Harmless(uppers, lower, n, w)
    ensures var s' := AfterWrite(s, w); Steady(uppers, lower, n, s', before, trace + [s'])
  {
    var s' := AfterWrite(s, w);
    UndisturbingIsSafe(uppers, lower, n, s');
  }

  lemma SteadySync(uppers: seq<Img>, lower: Content, n: nat, s: RawState, before: seq<RawState>, trace: seq<RawState>)
    requires n > 0 && Steady(uppers, lower, n, s, before, trace)
    ensures Steady(uppers, lower, n, Synced(s), before, trace + [Synced(s)])
  {
    UndisturbingIsSafe(uppers, lower, n, Synced(s));
  }

  /** `grow_raw_delta`: appends zeros, at most a mebibyte at a time. */
  method GrowRaw(f: RawFile, append: nat, ghost uppers: seq<Img>, ghost n: nat, ghost before: seq<RawState>)
    requires n > 0 && f.trace == before && f.State() == RawState(f.cur, f.cur, [])
    modifies f
    ensures |f.cur| == |old(f.cur)| + append && (forall q: nat :: Word(f.cur, q) == Word(old(f.cur), q))
    ensures f.dur == f.cur
    ensures Steady(uppers, old(f.cur), n, f.State(), before, f.trace)
  {
    ghost var lower := f.cur;
    var pos: nat, left: nat := |f.cur|, append;
    while left > 0
      invariant pos + left == |lower| + append && pos == |f.cur| && |lower| <= pos
      invariant forall q: nat :: Word(f.cur, q) == Word(lower, q)
      invariant Steady(uppers, lower, n, f.State(), before, f.trace)
    {
      var size := if left > DEF_CLUSTER then DEF_CLUSTER else left;
      var zeros: Block := seq(size, _ => 0);
      SteadyWrite(uppers, lower, n, f.State(), before, f.trace, RawWrite(pos, zeros));
      f.Write(pos, zeros);
      left := left - size;
      pos := pos + size;
    }
    SteadySync(uppers, lower, n, f.State(), before, f.trace);
    f.Fsync();
  }

  /** Sectors of 512 bytes, the last one perhaps begun only. */
  function Sectors(f: Content): (r: nat)
    ensures |f| <= r * 128 < |f| + 128
  {
    (|f| + 127) / 128
  }

  function Larger(a: nat, b: nat): nat { if a < b then b else a }

  /** The file is no larger than it was, or than a device of `size` sectors; and it has whole sectors if it had. */
  predicate Sized(size: nat, lower: Content, f: Content) {
    |lower| <= |f| && Sectors(f) <= Larger(Sectors(lower), size) && (|lower| % 128 == 0 ==> |f| % 128 == 0)
  }

  /** Cluster `v` lies inside the device. */
  lemma ClusterEnds(h: Header, v: nat)
    requires h.blocksize > 0 && v < h.L2()
    ensures v * h.Words() + h.Words() <= h.SizeInSectors() * 128 && (v * h.Words() + h.Words()) % 128 == 0
  {
    var bs := h.blocksize;
    assert (v + 1) * bs == v * bs + bs && v * h.Words() == 128 * (v * bs);
    MulMono(v + 1, h.L2(), bs);
  }

  lemma StoreSized(size: nat, lower: Content, f: Content, pos: nat, data: Block)
    requires Sized(size, lower, f) && pos + |data| <= size * 128 && (pos + |data|) % 128 == 0
    ensures Sized(size, lower, Put(f, pos, data))
  {
  }

  ghost predicate RawProgress(uppers: seq<Img>, lower: Content, n: nat, f: RawFile, before: seq<RawState>, p: nat)
    requires n > 0
    reads f
  {
    RawMergeable(uppers) && n == uppers[0].hdr.Words() && Steady(uppers, lower, n, f.State(), before, f.trace) &&
    RawMergedTo(uppers, lower, n, f.cur, p) && Sized(uppers[0].hdr.SizeInSectors(), lower, f.cur)
  }

  /** Index position `p`, which is word `k` of index cluster `i`. */
  method MergeRawWord(da: DeltaArray, f: RawFile, i: nat, k: nat, n: nat, start: nat, p: nat, ghost lower: Content,
        ghost before: seq<RawState>)
    requires |da.imgs| > 0 && n > 0 && k < n && start == i * n && p == start + k
    requires MAP_OFFSET <= p < da.imgs[0].hdr.L2() + MAP_OFFSET
    requires RawProgress(da.imgs, lower, n, f, before, p) && da.Caching(i) && da.cache[0] == i
    modifies da, f
    ensures RawProgress(da.imgs, lower, n, f, before, p + 1) && da.Caching(i) && da.cache[0] == i
    ensures |f.cur| >= |old(f.cur)|
  {
    var v := p - MAP_OFFSET;
    SlotAt(i, k, n);
    var found, data := FindData(da, i, k, v);
    if found { StoreRaw(f, da.imgs, n, v, p, data, lower, before); }
  }

  /** Writes the data of cluster `v` to its place. */
  method StoreRaw(f: RawFile, ghost uppers: seq<Img>, n: nat, v: nat, ghost p: nat, data: Block, ghost lower: Content,
        ghost before: seq<RawState>)
    requires n > 0 && p == v + MAP_OFFSET && StackRead(uppers, v) == Data(data) && |data| == n
    requires RawProgress(uppers, lower, n, f, before, p) && v < uppers[0].hdr.L2()
    modifies f
    ensures RawProgress(uppers, lower, n, f, before, p + 1) && |f.cur| >= |old(f.cur)|
  {
    RawMergedStep(uppers, lower, n, f.cur, v, data, v * n, p);
    WordHarmless(uppers, lower, n, v, data);
    ClusterEnds(uppers[0].hdr, v);
    StoreSized(uppers[0].hdr.SizeInSectors(), lower, f.cur, v * n, data);
    SteadyWrite(uppers, lower, n, f.State(), before, f.trace, RawWrite(v * n, data));
    f.Write(v * n, data);
  }

  /** Index cluster `i`, whose first word is at position `start`. */
  method MergeRawTable(da: DeltaArray, f: RawFile, i: nat, iEnd: nat, n: nat, start: nat, ghost lower: Content,
        ghost before: seq<RawState>)
    requires |da.l2| == |da.cache| == |da.imgs| > 0 && i < iEnd && n > MAP_OFFSET && i < da.imgs[0].hdr.L1()
    requires start == i * n && start < da.imgs[0].hdr.L2() + MAP_OFFSET
    requires var end := da.imgs[0].hdr.L2() + MAP_OFFSET; if i == iEnd - 1 then end <= start + n else start + n <= end
    requires RawProgress(da.imgs, lower, n, f, before, start + FirstWord(i))
    modifies da, f
    ensures |da.l2| == |da.cache| == |da.imgs| && |f.cur| >= |old(f.cur)|
    ensures RawProgress(da.imgs, lower, n, f, before,
      if i == iEnd - 1 then da.imgs[0].hdr.L2() + MAP_OFFSET else start + n)
  {
    da.LoadTop(i);
    var kEnd := n;
    if i == iEnd - 1 { kEnd := da.imgs[0].hdr.L2() + MAP_OFFSET - start; }
    MergeRawWords(da, f, i, FirstWord(i), kEnd, n, start, lower, before);
  }

  /** Its words from `kStart` up to `kEnd`. */
  method MergeRawWords(da: DeltaArray, f: RawFile, i: nat, kStart: nat, kEnd: nat, n: nat, start: nat,
        ghost lower: Content, ghost before: seq<RawState>)
    requires |da.imgs| > 0 && n > 0 && start == i * n && kStart <= kEnd <= n
    requires MAP_OFFSET <= start + kStart && start + kEnd <= da.imgs[0].hdr.L2() + MAP_OFFSET
    requires RawProgress(da.imgs, lower, n, f, before, start + kStart) && da.Caching(i) && da.cache[0] == i
    modifies da, f
    ensures RawProgress(da.imgs, lower, n, f, before, start + kEnd) && da.Caching(i) && |f.cur| >= |old(f.cur)|
  {
    var k := kStart;
    while k < kEnd
      invariant kStart <= k <= kEnd && da.Caching(i) && da.cache[0] == i && |f.cur| >= |old(f.cur)|
      invariant RawProgress(da.imgs, lower, n, f, before, start + k)
    {
      MergeRawWord(da, f, i, k, n, start, start + k, lower, before);
      k := k + 1;
    }
  }

  method MergeRawLoop(da: DeltaArray, f: RawFile, n: nat, ghost lower: Content, ghost before: seq<RawState>)
    requires |da.l2| == |da.cache| == |da.imgs| && n > MAP_OFFSET
    requires RawProgress(da.imgs, lower, n, f, before, MAP_OFFSET)
    modifies da, f
    ensures RawProgress(da.imgs, lower, n, f, before, da.imgs[0].hdr.L2() + MAP_OFFSET) && |f.cur| >= |old(f.cur)|
  {
    var l2 := da.imgs[0].hdr.L2();
    var iEnd := (l2 + MAP_OFFSET + n - 1) / n;
    TableCount(l2, n, iEnd);
    var i := 0;
    while i < iEnd
      invariant 0 <= i <= iEnd && |da.l2| == |da.cache| == |da.imgs| && |f.cur| >= |old(f.cur)|
      invariant RawProgress(da.imgs, lower, n, f, before, Position(i, iEnd, n, l2))
    {
      TableBounds(i, iEnd, n, l2);
      TableInIndex(da.imgs[0], i);
      MergeRawTable(da, f, i, iEnd, n, i * n, lower, before);
      i := i + 1;
    }
  }

  /** The file alone reads word for word what the stack read, and its device is as large as the topmost, or as it was
      if it was larger. */
  ghost predicate RawDone(images: seq<Img>, lower: Content, f: Content)
    requires |images| > 0
  {
    && images[0].hdr.blocksize > 0 && Sectors(f) == Larger(Sectors(lower), images[0].hdr.SizeInSectors())
    && (|lower| % 128 == 0 ==> |f| == 128 * Sectors(f))
    && forall q: nat :: Word(f, q) == StackWord(images, lower, images[0].hdr.Words(), q)
  }

  ghost predicate AlwaysSafe(images: seq<Img>, lower: Content, trace: seq<RawState>, from: nat)
    requires |images| > 0
  {
    images[0].hdr.blocksize > 0 && forall k :: from <= k < |trace| ==>
      RawSafe(images, lower, images[0].hdr.Words(), trace[k])
  }

  lemma StartRaw(images: seq<Img>, lower: Content, f: Content, n: nat)
    requires n > 0 && forall q: nat :: Word(f, q) == Word(lower, q)
    ensures RawMergedTo(images, lower, n, f, MAP_OFFSET)
  {
  }

  /** Makes the file as large as the topmost delta. */
  method PrepareRaw(images: seq<Img>, f: RawFile, n: nat)
    requires RawMergeable(images) && n == images[0].hdr.Words() > 0 && f.State() == RawState(f.cur, f.cur, [])
    modifies f
    ensures RawProgress(images, old(f.cur), n, f, old(f.trace), MAP_OFFSET)
    ensures Sectors(f.cur) == Larger(Sectors(old(f.cur)), images[0].hdr.SizeInSectors())
  {
    ghost var lower, before := f.cur, f.trace;
    var srcSize, dstSize := images[0].hdr.SizeInSectors(), Sectors(f.cur);
    if srcSize > dstSize { GrowRaw(f, (srcSize - dstSize) * 128, images, n, before); }
    GrownSized(srcSize, lower, f.cur);
    StartRaw(images, lower, f.cur, n);
  }

  lemma GrownSized(size: nat, lower: Content, f: Content)
    requires |f| == |lower| + if size > Sectors(lower) then (size - Sectors(lower)) * 128 else 0
    ensures Sized(size, lower, f) && Sectors(f) == Larger(Sectors(lower), size)
  {
  }

  lemma SectorsMono(f: Content, g: Content)
    requires |f| <= |g|
    ensures Sectors(f) <= Sectors(g)
  {
  }

  /** Growing and merging, once everything is open. */
  method MergeRawOpened(images: seq<Img>, f: RawFile)
    requires RawMergeable(images) && f.State() == RawState(f.cur, f.cur, [])
    modifies f
    ensures f.State() == RawState(f.cur, f.cur, []) && RawDone(images, old(f.cur), f.cur)
    ensures old(f.trace) <= f.trace && AlwaysSafe(images, old(f.cur), f.trace, |old(f.trace)|)
  {
    ghost var lower, before := f.cur, f.trace;
    var n := images[0].hdr.Words();
    assert images[0].hdr.blocksize > 0;
    PrepareRaw(images, f, n);
    ghost var grown := f.cur;
    var da := new DeltaArray(images);
    MergeRawLoop(da, f, n, lower, before);
    SectorsMono(grown, f.cur);
    SteadySync(images, lower, n, f.State(), before, f.trace);
    AllMerged(images, lower, n, f.cur, images[0].hdr.L2() + MAP_OFFSET);
    f.Fsync();
  }

  /** `merge_image`, offline, into a raw base. While it runs, every crash leaves a stack that reads as before; at
      the end the file alone, all of it on the disk, reads what the stack read. */
  method MergeIntoRaw(images: seq<Img>, f: RawFile) returns (r: MergeResult)
    requires |images| > 0 && Monotonic(images)
    requires forall j :: 0 <= j < |images| ==> Valid(images[j]) && images[j].hdr.L1() > 0
    requires f.State() == RawState(f.cur, f.cur, [])
    modifies f
    ensures r == Merged <==> forall j :: 0 <= j < |images| ==> !images[j].hdr.inUse && SameFormat(images[0], images[j])
    ensures r == CannotOpen <==> InUseFirst(images)
    ensures r != Merged ==> unchanged(f)
    ensures r == Merged ==> f.State() == RawState(f.cur, f.cur, []) && RawDone(images, old(f.cur), f.cur)
    ensures r == Merged ==> old(f.trace) <= f.trace && AlwaysSafe(images, old(f.cur), f.trace, |old(f.trace)|)
  {
    r := OpenDeltas(images);
    if r == Merged { MergeRawOpened(images, f); }
  }
}
