/** The offline merge loop: walks the index of the top delta, writes the data of the stack into the
    lowest delta through a write-back cache of one index cluster. */
module MergeImage {
  import opened Image
  import opened Disk
  import opened DeltaFile
  import opened Stack
  import opened Merge

  // ---------- the output delta ----------

  /** What is on the disk and what is pending disturbs nothing that shows through. */
  ghost predicate Steady(uppers: seq<Img>, lower: Img, out0: Img, cur: Img, dur: Img, log: seq<Write>) {
    && Extends(lower, out0) && HasGrown(uppers, out0.hdr)
    && SoundBelow(out0, dur, cur) && (forall k :: 0 <= k < |log| ==> DataOnly(out0, log[k]))
    && Keeps(uppers, out0, cur) && Keeps(uppers, out0, dur) && KeepsLog(uppers, out0, log)
    && Guarded(Snap(dur, log)) && cur.hdr.inUse
    && cur.hdr == out0.hdr && (dur.hdr.SameLayout(lower.hdr) || dur.hdr.SameLayout(out0.hdr))
  }

  /** Crash side of the loop invariant: nothing written so far, pending or not, disturbs what shows through. */
  ghost predicate Undisturbed(uppers: seq<Img>, lower: Img, out0: Img, f: File, before: seq<Snap>)
    reads f
  {
    && Steady(uppers, lower, out0, f.cur, f.dur, f.log)
    && SafeSince(uppers, lower, f.trace, before)
  }

  /** The file is as valid as what is durable, and may become durable. */
  lemma SteadySync(uppers: seq<Img>, lower: Img, out0: Img, cur: Img, dur: Img, log: seq<Write>)
    requires Steady(uppers, lower, out0, cur, dur, log)
    ensures Valid(cur) && Steady(uppers, lower, out0, cur, cur, []) && MergeSafe(uppers, lower, Snap(cur, []))
  {
    SameIndexValid(dur.(hdr := out0.hdr), cur);
    assert cur.(hdr := out0.hdr) == cur;
    KeptSafe(uppers, lower, out0, Snap(cur, []), cur);
  }

  /** An index cluster is written while everything else is durable. */
  lemma SteadyTable(uppers: seq<Img>, lower: Img, out0: Img, cur: Img, e: Img, i: nat, l2: Block, skip: nat)
    requires Steady(uppers, lower, out0, cur, cur, []) && Keeps(uppers, out0, e) && Valid(e)
    requires i < out0.hdr.L1() <= |cur.blocks| && OnlyAdds(cur.blocks[i], l2) && |l2| == cur.hdr.Words()
    requires e == cur.(blocks := cur.blocks[i := l2]) && skip == if i == 0 then MAP_OFFSET else 0
    requires i == 0 ==> l2[..MAP_OFFSET] == cur.blocks[0][..MAP_OFFSET]
    ensures var w := WordsAt(i, skip, l2[skip..]);
      Fitting(cur, w) && Apply(cur, w) == e &&
      MergeSafe(uppers, lower, Snap(cur, [w]))
    ensures Steady(uppers, lower, out0, e, e, []) && MergeSafe(uppers, lower, Snap(e, []))
  {
    WriteBackStep(uppers, out0, cur, e, i, l2, skip);
    assert cur.(hdr := out0.hdr) == cur && e.(hdr := out0.hdr) == e;
    TableSafe(uppers, lower, out0, cur, e, i, skip, l2);
    KeptSafe(uppers, lower, out0, Snap(e, []), e);
  }

  /** The in-use mark is dropped at the end. */
  lemma SteadyMark(uppers: seq<Img>, lower: Img, out0: Img, cur: Img)
    requires Steady(uppers, lower, out0, cur, cur, [])
    ensures MergeSafe(uppers, lower, Snap(cur, [InUseAt(false)]))
    ensures MergeSafe(uppers, lower, Snap(Apply(cur, InUseAt(false)), []))
  {
    var e := Apply(cur, InUseAt(false));
    SameIndexValid(cur, e);
    assert e.(hdr := out0.hdr) == cur;
    assert forall v: nat :: Slot(e, v) == Slot(cur, v);
    KeptSafe(uppers, lower, out0, Snap(cur, [InUseAt(false)]), cur);
    KeptSafe(uppers, lower, out0, Snap(e, []), e);
  }

  /** The handle while entries are added: the cached index cluster has those of the file, and more. */
  ghost predicate Storing(d: Delta)
    reads d, d.file
  {
    d.Working() && (d.l2Cache >= 0 ==> OnlyAdds(d.file.cur.blocks[d.l2Cache], d.l2))
  }

  /** Writing back a cached index cluster disturbs nothing and makes the file the effective image. */
  lemma WriteBackStep(uppers: seq<Img>, out0: Img, cur: Img, e: Img, i: nat, l2: Block, skip: nat)
    requires Keeps(uppers, out0, e) && WellSized(cur) && i < out0.hdr.L1() && out0.hdr.L1() <= |cur.blocks|
    requires |l2| == cur.hdr.Words() && e == cur.(blocks := cur.blocks[i := l2]) && out0.hdr == e.hdr
    requires skip == if i == 0 then MAP_OFFSET else 0
    requires i == 0 ==> l2[..MAP_OFFSET] == cur.blocks[0][..MAP_OFFSET]
    ensures var w := WordsAt(i, skip, l2[skip..]); Fitting(cur, w) && Apply(cur, w) == e && KeepsWrite(uppers, out0, w)
  {
    PatchTail(cur.blocks[i], l2, skip);
    TableWriteKeeps(uppers, out0, e, i, l2, skip);
  }

  lemma TableWriteKeeps(uppers: seq<Img>, out0: Img, e: Img, i: nat, l2: Block, skip: nat)
    requires Keeps(uppers, out0, e) && i < out0.hdr.L1() && i < |e.blocks| && e.blocks[i] == l2 && skip <= |l2|
    requires out0.hdr == e.hdr
    ensures KeepsWrite(uppers, out0, WordsAt(i, skip, l2[skip..]))
  {
    forall v: nat | Exposed(uppers, out0, v)
      ensures i == SlotBlock(v, out0.hdr.Words()) && skip <= SlotWord(v, out0.hdr.Words()) < |l2| ==>
        l2[skip..][SlotWord(v, out0.hdr.Words()) - skip] == Slot(out0, v)
      ensures Slot(out0, v) != 0 ==> i != Target(out0, v)
    {
      assert Slot(e, v) == Slot(out0, v);
    }
  }

  /** A single write, and waiting until it is on the disk. */
  method WriteDurably(f: File, w: Write, ghost uppers: seq<Img>, ghost lower: Img, ghost before: seq<Snap>)
    requires f.cur == f.dur && f.log == [] && Fitting(f.cur, w) && SafeSince(uppers, lower, f.trace, before)
    requires MergeSafe(uppers, lower, Snap(f.cur, [w])) && MergeSafe(uppers, lower, Snap(Apply(f.cur, w), []))
    requires f.cur.hdr.inUse && KeepsMark(w)
    modifies f
    ensures f.cur == f.dur == Apply(old(f.cur), w) && f.log == [] && SafeSince(uppers, lower, f.trace, before)
  {
    ghost var cur, t := f.cur, f.trace;
    SafeMore(uppers, lower, t, before, Snap(cur, [w]));
    SafeMore(uppers, lower, t + [Snap(cur, [w])], before, Snap(Apply(cur, w), []));
    assert f.log + [w] == [w];
    f.Write(w);
    f.Fsync();
    assert f.trace == t + [Snap(cur, [w])] + [Snap(Apply(cur, w), [])];
  }

  /** Writes the cached index cluster, sparing the header, and waits until it is durable. */
  method FlushTable(d: Delta, ghost uppers: seq<Img>, ghost lower: Img, ghost out0: Img, ghost before: seq<Snap>)
    requires Storing(d) && Undisturbed(uppers, lower, out0, d.file, before) && Keeps(uppers, out0, d.Effective())
    requires d.l2Dirty
    requires d.file.cur == d.file.dur && d.file.log == [] && Valid(d.Effective())
    modifies d.file
    ensures Undisturbed(uppers, lower, out0, d.file, before)
    ensures d.file.cur == d.file.dur == old(d.Effective()) && d.file.log == []
  {
    var skip := if d.l2Cache == 0 then MAP_OFFSET else 0;
    SteadyTable(uppers, lower, out0, d.file.cur, d.Effective(), d.l2Cache, d.l2, skip);
    WriteDurably(d.file, WordsAt(d.l2Cache, skip, d.l2[skip..]), uppers, lower, before);
  }

  /** `sync_cache`: data first, then the cached index cluster, each followed by an fsync. */
  method SyncCache(d: Delta, ghost uppers: seq<Img>, ghost lower: Img, ghost out0: Img, ghost before: seq<Snap>)
    requires Storing(d) && Undisturbed(uppers, lower, out0, d.file, before) && Keeps(uppers, out0, d.Effective())
    requires Valid(d.Effective())
    modifies d, d.file
    ensures Storing(d) && Undisturbed(uppers, lower, out0, d.file, before)
    ensures d.Effective() == old(d.Effective()) == d.file.cur && !d.l2Dirty
    ensures d.l2Cache == old(d.l2Cache) && d.allocHead == old(d.allocHead)
    ensures old(d.l2Dirty) ==> d.file.dur == d.file.cur && d.file.log == []
  {
    if !d.l2Dirty { return; }
    ghost var e := d.Effective();
    SteadySync(uppers, lower, out0, d.file.cur, d.file.dur, d.file.log);
    d.file.Fsync();
    FlushTable(d, uppers, lower, out0, before);
    assert e.blocks[d.l2Cache] == d.l2;
    d.l2Dirty := false;
  }

  /** Makes `i` the cached index cluster. */
  method LoadTable(d: Delta, i: nat, ghost uppers: seq<Img>, ghost lower: Img, ghost out0: Img, ghost before: seq<Snap>)
    requires Storing(d) && Undisturbed(uppers, lower, out0, d.file, before) && Keeps(uppers, out0, d.Effective())
    requires Valid(d.Effective())
    requires i < d.l1Size
    modifies d, d.file
    ensures Storing(d) && Undisturbed(uppers, lower, out0, d.file, before)
    ensures d.Effective() == old(d.Effective()) && d.l2Cache == i && d.allocHead == old(d.allocHead)
    ensures d.l2Size == old(d.l2Size)
  {
    if i != d.l2Cache {
      if d.l2Cache >= 0 { SyncCache(d, uppers, lower, out0, before); }
      d.l2Cache := i;
      d.l2 := d.file.ReadCluster(i);
      d.l2Dirty := false;
    }
  }

  /** The data write for cluster `v`, which some upper delta has, disturbs nothing. */
  lemma DataStep(uppers: seq<Img>, out0: Img, cur: Img, e: Img, v: nat, data: Block, t: nat)
    requires Keeps(uppers, out0, cur) && Keeps(uppers, out0, e) && Valid(e) && e.hdr == cur.hdr == out0.hdr
    requires |cur.blocks| == |e.blocks| && |data| == e.hdr.Words() && v < e.hdr.L2()
    requires StackRead(uppers, v) == Data(data)
    requires t == if Slot(e, v) != 0 then Target(e, v) else |e.blocks|
    ensures Fitting(cur, WordsAt(t, 0, data)) && KeepsWrite(uppers, out0, WordsAt(t, 0, data))
    ensures Keeps(uppers, out0, Apply(cur, WordsAt(t, 0, data)))
    ensures Apply(cur, WordsAt(t, 0, data)).blocks == if t < |cur.blocks| then cur.blocks[t := data]
      else cur.blocks + [data]
  {
    var n := out0.hdr.Words();
    if t < |cur.blocks| { assert Patch(cur.blocks[t], 0, data) == data; }
    forall u: nat | Exposed(uppers, out0, u)
      ensures t != SlotBlock(u, n) && (Slot(out0, u) != 0 ==> t != Target(out0, u))
      ensures Slot(Apply(cur, WordsAt(t, 0, data)), u) == Slot(cur, u)
    {
      if Slot(out0, u) != 0 && Slot(e, v) != 0 { TargetsDistinct(e, u, v); }
    }
  }

  lemma StoreKeeps(uppers: seq<Img>, out0: Img, e: Img, v: nat, data: Block)
    requires Keeps(uppers, out0, e) && Valid(e) && e.hdr == out0.hdr && v < e.hdr.L2() && |data| == e.hdr.Words()
    requires StackRead(uppers, v) == Data(data) && Fits(|e.blocks|, e.hdr.blocksize, e.hdr.version)
    ensures Keeps(uppers, out0, Store(e, v, data))
  {
    StoreSlots(e, v, data);
    forall u: nat | Exposed(uppers, out0, u) && Slot(out0, u) != 0
      ensures Target(out0, u) < |Store(e, v, data).blocks|
      ensures Store(e, v, data).blocks[Target(out0, u)] == out0.blocks[Target(out0, u)]
    {
      if Slot(e, v) != 0 { TargetsDistinct(e, u, v); }
    }
  }

  /** The table and the file after storing, put together, are the stored image. */
  lemma EffAfterStore(cur: Img, i: nat, k: nat, l2: Block, l2': Block, v: nat, data: Block, e: Img, cur': Img)
    requires WellSized(cur) && i < |cur.blocks| && k < |l2| == cur.hdr.Words()
    requires e == cur.(blocks := cur.blocks[i := l2])
    requires i == SlotBlock(v, cur.hdr.Words()) && k == SlotWord(v, cur.hdr.Words()) && i < cur.hdr.L1()
    requires |l2'| == |l2|
    requires if l2[k] == 0 then
        cur' == cur.(blocks := cur.blocks + [data]) && l2'[k] == Enc(|e.blocks|, e.hdr.blocksize, e.hdr.version) &&
        forall o :: 0 <= o < |l2| && o != k ==> l2'[o] == l2[o]
      else
        cur.hdr.L1() <= Target(e, v) < |e.blocks| && cur' == cur.(blocks := cur.blocks[Target(e, v) := data]) &&
        l2' == l2
    ensures cur'.(blocks := cur'.blocks[i := l2']) == Store(e, v, data)
  {
    var r, st := cur'.(blocks := cur'.blocks[i := l2']), Store(e, v, data);
    assert Slot(e, v) == l2[k];
    if l2[k] == 0 {
      assert st.blocks[i] == l2';
    }
    assert r.blocks == st.blocks;
  }

  /** Writes `data` as cluster `v` (word `k` of index cluster `i`), allocating a block if there is none. */
  method StoreCluster(d: Delta, i: nat, k: nat, data: Block, ghost v: nat,
                      ghost uppers: seq<Img>, ghost lower: Img, ghost out0: Img, ghost before: seq<Snap>)
    requires Storing(d) && Undisturbed(uppers, lower, out0, d.file, before)
    requires Keeps(uppers, out0, d.Effective()) && Valid(d.Effective())
    requires v < d.l2Size && i == SlotBlock(v, d.blocksize * 128) && k == SlotWord(v, d.blocksize * 128)
    requires (i == 0 ==> k >= MAP_OFFSET)
    requires StackRead(uppers, v) == Data(data) && |data| == d.blocksize * 128
    requires Fits(d.allocHead, d.blocksize, d.version)
    modifies d, d.file
    ensures Storing(d) && Undisturbed(uppers, lower, out0, d.file, before)
    ensures d.Effective() == Store(old(d.Effective()), v, data)
    ensures d.allocHead <= old(d.allocHead) + 1
  {
    SlotPosition(v, d.blocksize * 128);
    ghost var e := d.Effective();
    assert e.hdr == d.file.cur.hdr && e.hdr.Words() == d.blocksize * 128;
    assert i < d.l1Size by { assert SlotBlock(v, e.hdr.Words()) < e.hdr.L1(); }
    LoadTable(d, i, uppers, lower, out0, before);
    StoreCached(d, i, k, data, v, uppers, lower, out0, before);
  }

  method StoreCached(d: Delta, i: nat, k: nat, data: Block, ghost v: nat,
                     ghost uppers: seq<Img>, ghost lower: Img, ghost out0: Img, ghost before: seq<Snap>)
    requires Storing(d) && Undisturbed(uppers, lower, out0, d.file, before) && d.l2Cache == i
    requires Keeps(uppers, out0, d.Effective()) && Valid(d.Effective())
    requires v < d.l2Size && i == SlotBlock(v, d.blocksize * 128) && k == SlotWord(v, d.blocksize * 128)
    requires (i == 0 ==> k >= MAP_OFFSET)
    requires StackRead(uppers, v) == Data(data) && |data| == d.blocksize * 128
    requires Fits(d.allocHead, d.blocksize, d.version)
    modifies d, d.file
    ensures Storing(d) && Undisturbed(uppers, lower, out0, d.file, before)
    ensures d.Effective() == Store(old(d.Effective()), v, data)
    ensures d.allocHead <= old(d.allocHead) + 1
  {
    ghost var e, cur, l2 := d.Effective(), d.file.cur, d.l2;
    SlotPosition(v, d.blocksize * 128);
    assert d.l2[k] == Slot(e, v);
    BlockOfEnc(d.allocHead, d.blocksize, d.version);
    ghost var t := if Slot(e, v) != 0 then Target(e, v) else |e.blocks|;
    if d.l2[k] == 0 {
      d.l2 := d.l2[..k] + [Enc(d.allocHead, d.blocksize, d.version)] + d.l2[k + 1..];
      d.allocHead := d.allocHead + 1;
      d.l2Dirty := true;
    }
    assert BlockOf(d.l2[k], d.blocksize, d.version) == t;
    DataStep(uppers, out0, cur, e, v, data, t);
    d.file.Write(WordsAt(BlockOf(d.l2[k], d.blocksize, d.version), 0, data));
    EffAfterStore(cur, i, k, l2, d.l2, v, data, e, d.file.cur);
    KeptSafe(uppers, lower, out0, Snap(d.file.dur, d.file.log), d.file.cur);
    SafeMore(uppers, lower, old(d.file.trace), before, Snap(d.file.dur, d.file.log));
  }

  // ---------- the deltas being merged ----------

  /** The upper deltas, opened for reading, each with a cache of one index cluster. */
  class DeltaArray {
    const imgs: seq<Img>
    var l2: seq<Block>
    var cache: seq<int>

    /** While index cluster `i` is merged, a cache is either invalid or holds that cluster. */
    ghost predicate Caching(i: nat)
      reads this
    {
      && |l2| == |cache| == |imgs|
      && forall j :: 0 <= j < |imgs| && cache[j] != -1 ==>
           cache[j] == i < |imgs[j].blocks| && i < imgs[j].hdr.L1() && l2[j] == imgs[j].blocks[i]
    }

    constructor (imgs: seq<Img>)
      ensures this.imgs == imgs && |l2| == |cache| == |imgs|
    {
      this.imgs := imgs;
      l2 := seq(|imgs|, _ => []);
      cache := seq(|imgs|, _ => -1);
    }

    /** Loads index cluster `i` of the top delta and invalidates the other caches. */
    method LoadTop(i: nat)
      requires |l2| == |cache| == |imgs| > 0 && i < imgs[0].hdr.L1() <= |imgs[0].blocks|
      modifies this
      ensures Caching(i) && cache[0] == i
    {
      l2 := l2[0 := imgs[0].blocks[i]];
      cache := seq(|imgs|, j => if j == 0 then i else -1);
    }

    /** `locate_l2_entry`: the first delta below `level` with a non-zero entry, or -1. */
    method LocateL2Entry(level: nat, i: nat, k: nat) returns (out: int)
      requires Caching(i) && level < |imgs|
      requires forall j :: 0 <= j < |imgs| ==>
        WellSized(imgs[j]) && imgs[j].hdr.L1() <= |imgs[j].blocks| && k < imgs[j].hdr.Words()
      modifies this
      ensures Caching(i) && out == LocateFrom(imgs, level + 1, i, k)
      ensures cache[..level + 1] == old(cache[..level + 1])
      ensures 0 <= out ==> out < |imgs| && cache[out] == i
    {
      var lvl := level + 1;
      while lvl < |imgs|
        invariant level < lvl <= |imgs| && Caching(i)
        invariant LocateFrom(imgs, lvl, i, k) == LocateFrom(imgs, level + 1, i, k)
        invariant cache[..level + 1] == old(cache[..level + 1])
      {
        if cache[lvl] == -1 {
          if i >= imgs[lvl].hdr.L1() { break; }
          l2 := l2[lvl := imgs[lvl].blocks[i]];
          cache := cache[lvl := i];
        }
        if l2[lvl][k] != 0 { return lvl; }
        lvl := lvl + 1;
      }
      out := -1;
    }
  }

  // ---------- the loops ----------

  /** The image after all index positions below `p` were merged. */
  ghost predicate MergedTo(uppers: seq<Img>, out0: Img, e: Img, p: nat) {
    && Keeps(uppers, out0, e) && Valid(e) && e.hdr == out0.hdr
    && forall v: nat :: v < e.hdr.L2() ==>
         Read(e, v) == if v + MAP_OFFSET < p && StackRead(uppers, v) != Hole then StackRead(uppers, v)
           else Read(out0, v)
  }

  lemma MergedStep(uppers: seq<Img>, out0: Img, e: Img, v: nat, data: Block)
    requires MergedTo(uppers, out0, e, v + MAP_OFFSET) && v < e.hdr.L2() && |data| == e.hdr.Words()
    requires StackRead(uppers, v) == Data(data) && Fits(|e.blocks|, e.hdr.blocksize, e.hdr.version)
    ensures MergedTo(uppers, out0, Store(e, v, data), v + MAP_OFFSET + 1)
  {
    StoreReads(e, v, data);
    StoreKeeps(uppers, out0, e, v, data);
  }

  lemma MergedSkip(uppers: seq<Img>, out0: Img, e: Img, v: nat)
    requires MergedTo(uppers, out0, e, v + MAP_OFFSET) && StackRead(uppers, v) == Hole
    ensures MergedTo(uppers, out0, e, v + MAP_OFFSET + 1)
  {
  }

  /** The uppers as a valid stack of one device. */
  ghost predicate Mergeable(uppers: seq<Img>, out0: Img) {
    && |uppers| > 0 && ValidStack(uppers) && Monotonic(uppers) && uppers[0].hdr.L1() > 0
    && uppers[0].hdr.blocksize == out0.hdr.blocksize && uppers[0].hdr.version == out0.hdr.version
    && uppers[0].hdr.L2() == out0.hdr.L2()
  }

  /** The data the upper deltas have for index position (i, k), if any. */
  method FindData(da: DeltaArray, i: nat, k: nat, ghost v: nat) returns (found: bool, data: Block)
    requires |da.imgs| > 0 && ValidStack(da.imgs) && Monotonic(da.imgs) && da.Caching(i) && da.cache[0] == i
    requires v < da.imgs[0].hdr.L2() && i == SlotBlock(v, da.imgs[0].hdr.Words())
    requires k == SlotWord(v, da.imgs[0].hdr.Words())
    modifies da
    ensures da.Caching(i) && da.cache[0] == i
    ensures StackRead(da.imgs, v) == if found then Data(data) else Hole
    ensures found ==> |data| == da.imgs[0].hdr.Words()
  {
    var level2 := 0;
    SlotPosition(v, da.imgs[0].hdr.Words());
    LocateIsStackRead(da.imgs, 0, v);
    assert da.imgs[0..] == da.imgs;
    if da.l2[0][k] == 0 {
      level2 := da.LocateL2Entry(0, i, k);
      if level2 < 0 { return false, []; }
    }
    assert level2 == LocateFrom(da.imgs, 0, i, k);
    var img := da.imgs[level2];
    found, data := true, img.blocks[BlockOf(da.l2[level2][k], img.hdr.blocksize, img.hdr.version)];
  }

  /** One index position: find the data of the stack and store it below. */
  method MergeSlot(da: DeltaArray, d: Delta, i: nat, k: nat, ghost v: nat,
                   ghost lower: Img, ghost out0: Img, ghost before: seq<Snap>)
    requires Mergeable(da.imgs, out0) && da.Caching(i) && da.cache[0] == i
    requires Storing(d) && Undisturbed(da.imgs, lower, out0, d.file, before)
    requires MergedTo(da.imgs, out0, d.Effective(), v + MAP_OFFSET)
    requires v < out0.hdr.L2() && i == SlotBlock(v, out0.hdr.Words()) && k == SlotWord(v, out0.hdr.Words())
    requires (i == 0 ==> k >= MAP_OFFSET)
    requires Fits(d.allocHead, d.blocksize, d.version)
    modifies da, d, d.file
    ensures da.Caching(i) && da.cache[0] == i
    ensures Storing(d) && Undisturbed(da.imgs, lower, out0, d.file, before)
    ensures MergedTo(da.imgs, out0, d.Effective(), v + MAP_OFFSET + 1)
    ensures d.allocHead <= old(d.allocHead) + 1
  {
    var found, data := FindData(da, i, k, v);
    if found {
      StoreFound(d, i, k, data, v, da.imgs, lower, out0, before);
    } else {
      MergedSkip(da.imgs, out0, d.Effective(), v);
    }
  }

  method StoreFound(d: Delta, i: nat, k: nat, data: Block, ghost v: nat,
                    ghost uppers: seq<Img>, ghost lower: Img, ghost out0: Img, ghost before: seq<Snap>)
    requires Storing(d) && Undisturbed(uppers, lower, out0, d.file, before)
    requires MergedTo(uppers, out0, d.Effective(), v + MAP_OFFSET)
    requires v < out0.hdr.L2() && i == SlotBlock(v, out0.hdr.Words()) && k == SlotWord(v, out0.hdr.Words())
    requires (i == 0 ==> k >= MAP_OFFSET)
    requires StackRead(uppers, v) == Data(data) && |data| == out0.hdr.Words()
    requires Fits(d.allocHead, d.blocksize, d.version)
    modifies d, d.file
    ensures Storing(d) && Undisturbed(uppers, lower, out0, d.file, before)
    ensures MergedTo(uppers, out0, d.Effective(), v + MAP_OFFSET + 1)
    ensures d.allocHead <= old(d.allocHead) + 1
  {
    MergedStep(uppers, out0, d.Effective(), v, data);
    StoreCluster(d, i, k, data, v, uppers, lower, out0, before);
  }
}
