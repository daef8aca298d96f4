/** A raw image: the device itself as a file, without an index. Past its end it reads as zeros. */
module RawImage {
  import opened Image
  import opened DeltaFile

  /** A file, as 32-bit words. */
  type Content = seq<U32>

  function Word(f: Content, q: nat): U32 { if q < |f| then f[q] else 0 }

  /** The file after a write, which may lie past the end. */
  function Put(f: Content, pos: nat, words: Block): (r: Content)
    ensures |r| == if |f| < pos + |words| then pos + |words| else |f|
    ensures forall q: nat :: Word(r, q) == if pos <= q < pos + |words| then words[q - pos] else Word(f, q)
  {
    var g: Content := if |f| < pos + |words| then f + seq(pos + |words| - |f|, _ => 0) else f;
    g[..pos] + words + g[pos + |words|..]
  }

  datatype RawWrite = RawWrite(pos: nat, words: Block)

  datatype RawState = RawState(cur: Content, dur: Content, log: seq<RawWrite>)

  /** `c` can be on the disk after a crash: of the writes since the last sync any word may be missing. */
  ghost predicate RawPossible(s: RawState, c: Content) {
    forall q: nat :: Word(c, q) == Word(s.dur, q) ||
      exists k :: 0 <= k < |s.log| && s.log[k].pos <= q < s.log[k].pos + |s.log[k].words| &&
        s.log[k].words[q - s.log[k].pos] == Word(c, q)
  }

  function AfterWrite(s: RawState, w: RawWrite): RawState {
    RawState(Put(s.cur, w.pos, w.words), s.dur, s.log + [w])
  }

  function Synced(s: RawState): RawState { RawState(s.cur, s.cur, []) }

  class RawFile {
    var cur: Content
    ghost var dur: Content
    ghost var log: seq<RawWrite>
    ghost var trace: seq<RawState>

    ghost function State(): RawState
      reads this
    {
      RawState(cur, dur, log)
    }

    constructor (f: Content)
      ensures State() == RawState(f, f, []) && trace == []
    {
      cur, dur, log, trace := f, f, [], [];
    }

    method Write(pos: nat, words: Block)
      modifies this
      ensures State() == AfterWrite(old(State()), RawWrite(pos, words)) && trace == old(trace) + [State()]
    {
      cur := Put(cur, pos, words);
      log := log + [RawWrite(pos, words)];
      trace := trace + [RawState(cur, dur, log)];
    }

    method Fsync()
      modifies this
      ensures State() == Synced(old(State())) && trace == old(trace) + [State()]
    {
      dur, log := cur, [];
      trace := trace + [RawState(cur, dur, log)];
    }
  }

  // ---------- conversion to raw ----------

  /** Word `o` of what was read; nothing reads as zeros. */
  function DeviceWord(l: Lookup, o: nat): U32 {
    if l.Data? && o < |l.block| then l.block[o] else 0
  }

  /** The first `clu` clusters of the device of `img`, one after the other. */
  ghost predicate RawUpTo(img: Img, clu: nat, f: Content)
    requires img.hdr.blocksize > 0
  {
    var n := img.hdr.Words();
    |f| == clu * n && forall v: nat, o: nat :: v < clu && o < n ==> Word(f, v * n + o) == DeviceWord(Read(img, v), o)
  }

  /** One more cluster. */
  lemma RawStep(img: Img, clu: nat, f: Content, buf: Block)
    requires img.hdr.blocksize > 0 && RawUpTo(img, clu, f) && |buf| == img.hdr.Words()
    requires forall o: nat :: o < |buf| ==> buf[o] == DeviceWord(Read(img, clu), o)
    ensures RawUpTo(img, clu + 1, Put(f, clu * |buf|, buf))
  {
    var n := img.hdr.Words();
    var g := Put(f, clu * n, buf);
    assert (clu + 1) * n == clu * n + n;
    forall v: nat, o: nat | v < clu + 1 && o < n ensures Word(g, v * n + o) == DeviceWord(Read(img, v), o) {
      if v < clu {
        InEarlier(v, clu, n, o);
        WordStays(f, clu * n, buf, v * n + o);
      } else {
        WordPut(f, clu * n, buf, o);
      }
    }
  }

  lemma WordStays(f: Content, pos: nat, buf: Block, q: nat)
    requires q < pos
    ensures Word(Put(f, pos, buf), q) == Word(f, q)
  {
  }

  lemma WordPut(f: Content, pos: nat, buf: Block, o: nat)
    requires o < |buf|
    ensures Word(Put(f, pos, buf), pos + o) == buf[o]
  {
  }

  lemma InEarlier(v: nat, clu: nat, n: nat, o: nat)
    requires v < clu && o < n
    ensures v * n + o < clu * n
  {
    assert (v + 1) * n == v * n + n;
    MulMono(v + 1, clu, n);
  }

  lemma AlignedIs(s: U32, blocksize: nat, version: Version)
    requires blocksize > 0
    ensures Aligned(s, blocksize, version) <==> version == V2 || s % blocksize == 0
  {
    if version == V2 { MulDiv(s, blocksize); }
  }

  lemma ReadIs(img: Img, clu: nat, s: U32)
    requires img.hdr.blocksize > 0 && clu < img.hdr.L2() && SlotBlock(clu, img.hdr.Words()) < img.hdr.L1()
    requires s == Slot(img, clu)
    ensures Read(img, clu) ==
      if s == 0 then Hole
      else if (img.hdr.version == V2 || s % img.hdr.blocksize == 0) &&
        BlockOf(s, img.hdr.blocksize, img.hdr.version) < |img.blocks|
      then Data(img.blocks[BlockOf(s, img.hdr.blocksize, img.hdr.version)])
      else Broken
  {
    AlignedIs(s, img.hdr.blocksize, img.hdr.version);
  }

  /** What entry `s` of cluster `clu` leads to; nothing if the image is broken there. */
  method ReadEntry(d: Delta, clu: nat, s: U32) returns (ok: bool, buf: Block)
    requires d.Synced() && clu < d.l2Size && SlotBlock(clu, d.blocksize * 128) < d.l1Size && s == Slot(d.file.cur, clu)
    ensures ok == !Read(d.file.cur, clu).Broken?
    ensures ok ==>
      |buf| == d.blocksize * 128 && forall o: nat :: o < |buf| ==> buf[o] == DeviceWord(Read(d.file.cur, clu), o)
  {
    buf := [];
    ReadIs(d.file.cur, clu, s);
    if d.version == V1 && s % d.blocksize != 0 { return false, buf; }
    if s != 0 {
      var block := BlockOf(s, d.blocksize, d.version);
      if block >= |d.file.cur.blocks| { return false, buf; }
      buf := d.file.ReadCluster(block);
    } else {
      buf := seq(d.blocksize * 128, _ => 0);
    }
    ok := true;
  }

  /** Cluster `clu`, through the cache. */
  method ReadThrough(d: Delta, clu: nat) returns (ok: bool, buf: Block)
    requires d.Synced() && clu < d.l2Size
    modifies d`l2, d`l2Cache
    ensures d.Synced() && ok == !Read(d.file.cur, clu).Broken?
    ensures ok ==>
      |buf| == d.blocksize * 128 && forall o: nat :: o < |buf| ==> buf[o] == DeviceWord(Read(d.file.cur, clu), o)
  {
    var n := d.blocksize * 128;
    var l2Cluster, l2Slot := SlotBlock(clu, n), SlotWord(clu, n);
    SlotPosition(clu, n);
    if l2Cluster >= d.l1Size { return false, []; }
    if d.l2Cache != l2Cluster {
      d.l2 := d.file.ReadCluster(l2Cluster);
      d.l2Cache := l2Cluster;
    }
    ok, buf := ReadEntry(d, clu, d.l2[l2Slot]);
  }

  /** `expanded2raw`, up to the renaming: `out` is the new file. It succeeds exactly if the image is broken
      nowhere, and then the new file, all of it on the disk, is the device. The image is left alone. */
  method Expanded2Raw(d: Delta, out: RawFile) returns (ok: bool)
    requires d.Synced() && out.State() == RawState([], [], [])
    modifies d`l2, d`l2Cache, out
    ensures ok <==> forall v: nat :: v < d.l2Size ==> !Read(d.file.cur, v).Broken?
    ensures ok ==> RawUpTo(d.file.cur, d.l2Size, out.cur) && out.dur == out.cur && out.log == []
  {
    var n := d.blocksize * 128;
    var clu := 0;
    while clu < d.l2Size
      invariant d.Synced() && clu <= d.l2Size && RawUpTo(d.file.cur, clu, out.cur)
      invariant forall v: nat :: v < clu ==> !Read(d.file.cur, v).Broken?
    {
      var buf;
      ok, buf := ReadThrough(d, clu);
      if !ok { return; }
      RawStep(d.file.cur, clu, out.cur, buf);
      out.Write(clu * n, buf);
      clu := clu + 1;
    }
    out.Fsync();
    ok := true;
  }
}
