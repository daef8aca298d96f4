/** Rewriting the index of one delta for the other format version, and writing a saved index back. */
module Convert {
  import opened Image
  import opened Disk
  import opened DeltaFile

  const MAX_V1_SECTORS: nat := 0xffff_ffff

  // ---------- entries ----------

  /** The entry written for `s`; unallocated entries stay unallocated. */
  function ConvertEntry(s: U32, bs: nat, from: Version, to: Version): U32
    requires bs > 0
  {
    if s == 0 then 0 else SecToIoff(IoffToSec(s, bs, from), bs, to)
  }

  /** The size check made before an entry is written in version 1. */
  predicate EntryAllowed(s: U32, bs: nat, from: Version, to: Version) {
    s != 0 && to == V1 ==> IoffToSec(s, bs, from) <= MAX_V1_SECTORS
  }

  /** For version 1 an entry is refused exactly if no entry of version 1 names its sector. */
  lemma EntryAllowedExact(s: U32, bs: nat, from: Version)
    ensures EntryAllowed(s, bs, from, V1) <==> exists e: U32 :: IoffToSec(e, bs, V1) == IoffToSec(s, bs, from)
    ensures EntryAllowed(s, bs, from, V2)
  {
    var sec := IoffToSec(s, bs, from);
    if sec < U32_LIMIT { assert IoffToSec(sec as U32, bs, V1) == sec; }
  }

  /** A checked entry keeps its offset exactly when a version 1 entry rewritten for version 2 is a
      multiple of the blocksize; an unaligned entry is silently moved down. */
  lemma EntryExact(s: U32, bs: nat, from: Version, to: Version)
    requires bs > 0 && EntryAllowed(s, bs, from, to)
    ensures IoffToSec(ConvertEntry(s, bs, from, to), bs, to) == IoffToSec(s, bs, from) <==>
      !(from == V1 && to == V2 && s % bs != 0)
    ensures s != 0 && !(from == V1 && to == V2 && s < bs) ==> ConvertEntry(s, bs, from, to) != 0
  {
    match from
    case V1 =>
      if to == V2 { EntryDown(s, bs); }
    case V2 =>
      if to == V1 { EntryUp(s, bs); } else { MulDiv(s, bs); }
  }

  /** With clusters of 64 sectors the entry for sector 65 comes to name sector 64, and the one for sector 1 is lost. */
  lemma EntryMoved()
    ensures IoffToSec(ConvertEntry(65, 64, V1, V2), 64, V2) == 64 && ConvertEntry(1, 64, V1, V2) == 0
  {
  }

  lemma EntryUp(s: U32, bs: nat)
    requires bs > 0 && s * bs < U32_LIMIT
    ensures ConvertEntry(s, bs, V2, V1) == s * bs && (s > 0 ==> s * bs > 0)
  {
    MulMono(1, s, bs);
  }

  lemma EntryDown(s: U32, bs: nat)
    requires bs > 0
    ensures ConvertEntry(s, bs, V1, V2) == s / bs
    ensures s / bs * bs == s <==> s % bs == 0
    ensures s >= bs ==> s / bs > 0
  {
    MulMono(1, bs, s / bs);
    if s >= bs { DivAtLeast(s, bs, 1); }
  }

  // ---------- images ----------

  /** `c` is `img` with every slot rewritten; nothing else but the version differs. */
  ghost predicate ConvertedIndex(img: Img, c: Img, done: nat, to: Version) {
    && WellSized(c) && c.hdr == img.hdr && |c.blocks| == |img.blocks|
    && (forall b :: img.hdr.L1() <= b < |img.blocks| ==> c.blocks[b] == img.blocks[b])
    && (forall v: nat :: SlotBlock(v, img.hdr.Words()) < img.hdr.L1() ==>
          Slot(c, v) == if v < done then ConvertEntry(Slot(img, v), img.hdr.blocksize, img.hdr.version, to)
            else Slot(img, v))
  }

  ghost predicate Converted(img: Img, c: Img, to: Version) {
    && WellSized(c) && c.hdr == img.hdr.(version := to) && |c.blocks| == |img.blocks|
    && (forall b :: img.hdr.L1() <= b < |img.blocks| ==> c.blocks[b] == img.blocks[b])
    && (forall v: nat :: SlotBlock(v, img.hdr.Words()) < img.hdr.L1() ==>
          Slot(c, v) == ConvertEntry(Slot(img, v), img.hdr.blocksize, img.hdr.version, to))
  }

  /** The device size is the same in both readings of the size field. */
  predicate SizeAgrees(h: Header) { h.sizeHigh == 0 || h.version == V2 }

  ghost predicate Convertible(img: Img, to: Version) {
    && Valid(img) && SizeAgrees(img.hdr) && (to == V1 ==> img.hdr.sizeHigh == 0)
    && forall v: nat :: v < img.hdr.L2() ==> EntryAllowed(Slot(img, v), img.hdr.blocksize, img.hdr.version, to)
  }

  lemma ConvertedSlot(img: Img, c: Img, to: Version, v: nat)
    requires Convertible(img, to) && Converted(img, c, to) && v < img.hdr.L2() && Slot(img, v) != 0
    ensures Slot(c, v) != 0
    ensures IoffToSec(Slot(c, v), img.hdr.blocksize, to) == IoffToSec(Slot(img, v), img.hdr.blocksize, img.hdr.version)
  {
    var s, bs, from := Slot(img, v), img.hdr.blocksize, img.hdr.version;
    assert Points(s, img);
    EntryExact(s, bs, from, to);
    if from == V1 && s < bs { DivUnique(s, bs, 0, s); }
  }

  lemma ConvertedSize(img: Img, to: Version)
    requires SizeAgrees(img.hdr) && (to == V1 ==> img.hdr.sizeHigh == 0)
    ensures var h := img.hdr.(version := to);
      h.SizeInSectors() == img.hdr.SizeInSectors() && h.L1() == img.hdr.L1() && h.L2() == img.hdr.L2() &&
      h.Words() == img.hdr.Words()
  {
  }

  /** Converting a valid image leaves what every cluster reads unchanged, and the image valid. */
  lemma ConvertedReads(img: Img, c: Img, to: Version)
    requires Convertible(img, to) && Converted(img, c, to)
    ensures c.hdr.L2() == img.hdr.L2() && c.hdr.L1() == img.hdr.L1() && Valid(c)
    ensures forall v: nat :: Read(c, v) == Read(img, v)
  {
    ConvertedSize(img, to);
    forall v: nat | v < img.hdr.L2() && Slot(img, v) != 0
      ensures Slot(c, v) != 0 && Points(Slot(c, v), c) && Target(c, v) == Target(img, v)
    {
      ConvertedSlot(img, c, to, v);
      assert Points(Slot(img, v), img);
    }
    forall v: nat, v': nat | v < v' < img.hdr.L2() && Slot(c, v) != 0 ensures Slot(c, v) != Slot(c, v') {
      assert Slot(img, v) != Slot(img, v');
      if Slot(img, v') != 0 && Slot(c, v) == Slot(c, v') {
        ConvertedSlot(img, c, to, v);
        ConvertedSlot(img, c, to, v');
        SameSector(Slot(img, v), Slot(img, v'), img.hdr.blocksize, img.hdr.version);
      }
    }
    forall v: nat ensures Read(c, v) == Read(img, v) {
      if v < img.hdr.L2() && Slot(img, v) != 0 { assert Points(Slot(c, v), c); }
    }
  }

  lemma SameSector(s: U32, t: U32, bs: nat, version: Version)
    requires bs > 0 && IoffToSec(s, bs, version) == IoffToSec(t, bs, version)
    ensures s == t
  {
    if version == V2 { MulDiv(s, bs); MulDiv(t, bs); }
  }

  // ---------- the program ----------

  /** What a crash during conversion may leave: the index is in an unknown state, the rest of the header
      and all data clusters are as before. */
  ghost predicate DataIntact(img: Img, to: Version, c: Img) {
    && c.hdr == img.hdr.(version := c.hdr.version) && (c.hdr.version == img.hdr.version || c.hdr.version == to)
    && |img.blocks| <= |c.blocks|
    && (forall b :: img.hdr.L1() <= b < |img.blocks| ==> c.blocks[b] == img.blocks[b])
    && (forall b :: 0 <= b < |c.blocks| ==> |c.blocks[b]| == img.hdr.Words())
  }

  predicate IndexWrite(img: Img, to: Version, w: Write) {
    (w.WordsAt? && w.block < img.hdr.L1()) || w == VersionAt(to)
  }

  ghost predicate IndexOnly(img: Img, to: Version, s: Snap) {
    && WellSized(img) && |s.dur.blocks| == |img.blocks| && DataIntact(img, to, s.dur)
    && forall k :: 0 <= k < |s.log| ==> IndexWrite(img, to, s.log[k])
  }

  lemma IndexOnlyCrash(img: Img, to: Version, s: Snap, c: Img)
    requires IndexOnly(img, to, s) && Possible(s, c)
    ensures DataIntact(img, to, c)
  {
    forall b | img.hdr.L1() <= b < |img.blocks| ensures c.blocks[b] == img.blocks[b] { Untouched(s, c, b); }
  }

  ghost predicate ConvertSafe(img: Img, to: Version, trace: seq<Snap>, from: nat) {
    forall k, c :: from <= k < |trace| && Possible(trace[k], c) ==> DataIntact(img, to, c)
  }

  lemma ConvertSafeStep(img: Img, to: Version, trace: seq<Snap>, from: nat, s: Snap)
    requires from <= |trace| && ConvertSafe(img, to, trace, from) && IndexOnly(img, to, s)
    ensures ConvertSafe(img, to, trace + [s], from)
  {
    forall k, c | from <= k < |trace| + 1 && Possible((trace + [s])[k], c) ensures DataIntact(img, to, c) {
      if k == |trace| { IndexOnlyCrash(img, to, s, c); }
    }
  }

  /** `writeback_idx`: writes the cached index cluster, sparing the header. */
  method WritebackIdx(d: Delta, ghost img: Img, ghost to: Version, ghost from: nat)
    requires d.Working() && d.l2Dirty && IndexOnly(img, to, Snap(d.file.dur, d.file.log)) && d.file.cur.hdr == img.hdr
    requires from <= |d.file.trace| && ConvertSafe(img, to, d.file.trace, from)
    modifies d, d.file
    ensures d.Working() && !d.l2Dirty && d.Effective() == d.file.cur == old(d.Effective())
    ensures d.l2Cache == old(d.l2Cache)
    ensures d.file.dur == old(d.file.dur) && IndexOnly(img, to, Snap(d.file.dur, d.file.log))
    ensures old(d.file.trace) <= d.file.trace && ConvertSafe(img, to, d.file.trace, from)
  {
    var skip := if d.l2Cache == 0 then MAP_OFFSET else 0;
    PatchTail(d.file.cur.blocks[d.l2Cache], d.l2, skip);
    ConvertSafeStep(img, to, d.file.trace, from,
      Snap(d.file.dur, d.file.log + [WordsAt(d.l2Cache, skip, d.l2[skip..])]));
    d.file.Write(WordsAt(d.l2Cache, skip, d.l2[skip..]));
    d.l2Dirty := false;
  }

  ghost predicate Converting(d: Delta, img: Img, to: Version, clu: nat, before: seq<Snap>)
    reads d, d.file
  {
    && d.Working() && ConvertedIndex(img, d.Effective(), clu, to)
    && (forall v: nat :: v < clu ==> EntryAllowed(Slot(img, v), img.hdr.blocksize, img.hdr.version, to))
    && d.file.dur == img && IndexOnly(img, to, Snap(img, d.file.log))
    && before <= d.file.trace && ConvertSafe(img, to, d.file.trace, |before|)
  }

  lemma ConvertingIntact(d: Delta, img: Img, to: Version, clu: nat, before: seq<Snap>)
    requires Converting(d, img, to, clu, before)
    ensures DataIntact(img, to, d.file.cur)
  {
    var e := d.Effective();
    assert forall b :: img.hdr.L1() <= b < |img.blocks| ==> e.blocks[b] == d.file.cur.blocks[b];
  }

  /** Puts index cluster `b` into the cache, writing back a changed one first. */
  method CacheCluster(d: Delta, b: nat, ghost img: Img, ghost to: Version, ghost clu: nat, ghost before: seq<Snap>)
    requires Converting(d, img, to, clu, before) && b < d.l1Size
    modifies d, d.file
    ensures Converting(d, img, to, clu, before) && d.l2Cache == b
  {
    if d.l2Cache != b {
      FlushIdx(d, img, to, clu, before);
      d.l2 := d.file.ReadCluster(b);
      d.l2Cache := b;
    }
  }

  /** Writes back the cached index cluster if it changed. */
  method FlushIdx(d: Delta, ghost img: Img, ghost to: Version, ghost clu: nat, ghost before: seq<Snap>)
    requires Converting(d, img, to, clu, before)
    modifies d, d.file
    ensures Converting(d, img, to, clu, before) && !d.l2Dirty && d.Effective() == d.file.cur
    ensures d.l2Cache == old(d.l2Cache) && d.l1Size == old(d.l1Size)
  {
    if d.l2Dirty { WritebackIdx(d, img, to, |before|); }
    assert d.l2Cache >= 0 ==> d.Effective().blocks == d.file.cur.blocks;
  }

  lemma EntryStep(img: Img, e: Img, e': Img, clu: nat, to: Version)
    requires ConvertedIndex(img, e, clu, to) && SlotBlock(clu, img.hdr.Words()) < img.hdr.L1() <= |e.blocks|
    requires var b, o := SlotBlock(clu, img.hdr.Words()), SlotWord(clu, img.hdr.Words());
      o < |e.blocks[b]| && WellSized(e') && e'.hdr == e.hdr && |e'.blocks| == |e.blocks| &&
      (forall b' :: 0 <= b' < |e.blocks| && b' != b ==> e'.blocks[b'] == e.blocks[b']) &&
      (forall o' :: 0 <= o' < |e.blocks[b]| && o' != o ==> e'.blocks[b][o'] == e.blocks[b][o']) &&
      e'.blocks[b][o] == ConvertEntry(Slot(img, clu), img.hdr.blocksize, img.hdr.version, to)
    ensures ConvertedIndex(img, e', clu + 1, to)
  {
    var n := img.hdr.Words();
    forall v: nat | SlotBlock(v, n) < img.hdr.L1()
      ensures Slot(e', v) == if v < clu + 1 then ConvertEntry(Slot(img, v), img.hdr.blocksize, img.hdr.version, to)
        else Slot(img, v)
    {
      SlotPosition(v, n);
      if SlotBlock(v, n) == SlotBlock(clu, n) && SlotWord(v, n) == SlotWord(clu, n) { SlotDistinct(v, clu, n); }
      assert Slot(e', v) == if v == clu then ConvertEntry(Slot(img, v), img.hdr.blocksize, img.hdr.version, to)
        else Slot(e, v);
    }
  }

  /** The same, for the cached table. */
  lemma CachedEntryStep(img: Img, f: Img, l2: Block, l2': Block, clu: nat, to: Version)
    requires img.hdr.blocksize > 0 && WellSized(f) && SlotBlock(clu, img.hdr.Words()) < img.hdr.L1() <= |f.blocks|
    requires var b, o := SlotBlock(clu, img.hdr.Words()), SlotWord(clu, img.hdr.Words());
      |l2| == |l2'| == f.hdr.Words() && o < |l2| && ConvertedIndex(img, f.(blocks := f.blocks[b := l2]), clu, to) &&
      (forall o' :: 0 <= o' < |l2| && o' != o ==> l2'[o'] == l2[o']) &&
      l2'[o] == ConvertEntry(Slot(img, clu), img.hdr.blocksize, img.hdr.version, to)
    ensures ConvertedIndex(img, f.(blocks := f.blocks[SlotBlock(clu, img.hdr.Words()) := l2']), clu + 1, to)
  {
    var b := SlotBlock(clu, img.hdr.Words());
    EntryStep(img, f.(blocks := f.blocks[b := l2]), f.(blocks := f.blocks[b := l2']), clu, to);
  }

  /** Rewrites slot `clu`; false if the size check refuses it. */
  method ConvertSlot(d: Delta, clu: nat, to: Version, ghost img: Img, ghost before: seq<Snap>) returns (ok: bool)
    requires Converting(d, img, to, clu, before) && SlotBlock(clu, img.hdr.Words()) < img.hdr.L1()
    modifies d, d.file
    ensures ok ==> Converting(d, img, to, clu + 1, before)
    ensures !ok ==> Converting(d, img, to, clu, before)
    ensures ok == EntryAllowed(Slot(img, clu), img.hdr.blocksize, img.hdr.version, to)
  {
    CacheCluster(d, SlotBlock(clu, d.blocksize * 128), img, to, clu, before);
    ok := ConvertCached(d, clu, to, img, before);
  }

  /** The same once the index cluster of slot `clu` is in the cache. */
  method ConvertCached(d: Delta, clu: nat, to: Version, ghost img: Img, ghost before: seq<Snap>) returns (ok: bool)
    requires Converting(d, img, to, clu, before) && d.l2Cache == SlotBlock(clu, img.hdr.Words())
    modifies d
    ensures ok ==> Converting(d, img, to, clu + 1, before)
    ensures !ok ==> Converting(d, img, to, clu, before)
    ensures ok == EntryAllowed(Slot(img, clu), img.hdr.blocksize, img.hdr.version, to)
  {
    var l2Slot := SlotWord(clu, d.blocksize * 128);
    SlotPosition(clu, d.blocksize * 128);
    ghost var l2 := d.l2;
    assert d.l2[l2Slot] == Slot(d.Effective(), clu) == Slot(img, clu);
    if d.l2[l2Slot] == 0 {
      CachedEntryStep(img, d.file.cur, l2, l2, clu, to);
      return true;
    }
    var off := IoffToSec(d.l2[l2Slot], d.blocksize, d.version);
    if to == V1 && off > MAX_V1_SECTORS { return false; }
    d.l2 := d.l2[..l2Slot] + [SecToIoff(off, d.blocksize, to)] + d.l2[l2Slot + 1..];
    d.l2Dirty := true;
    assert d.l2Cache == 0 ==> d.l2[..MAP_OFFSET] == l2[..MAP_OFFSET];
    CachedEntryStep(img, d.file.cur, l2, d.l2, clu, to);
    ok := true;
  }

  /** `change_fmt_version`: rewrites the whole index cluster by cluster, then the signature, then syncs.
      A crash in between leaves the data clusters and the rest of the header alone. */
  method ChangeFmtVersion(d: Delta, to: Version) returns (ok: bool)
    requires d.Working() && d.l2Cache == -1 && d.file.cur == d.file.dur && d.file.log == []
    modifies d, d.file
    ensures ok <==> forall v: nat :: SlotBlock(v, old(d.file.cur).hdr.Words()) < old(d.file.cur).hdr.L1() ==>
      EntryAllowed(Slot(old(d.file.cur), v), old(d.file.cur).hdr.blocksize, old(d.file.cur).hdr.version, to)
    ensures ok ==> Converted(old(d.file.cur), d.file.cur, to) && d.file.cur == d.file.dur && d.file.log == []
    ensures !ok ==> DataIntact(old(d.file.cur), to, d.file.cur)
    ensures old(d.file.trace) <= d.file.trace && ConvertSafe(old(d.file.cur), to, d.file.trace, |old(d.file.trace)|)
  {
    ghost var img, before := d.file.cur, d.file.trace;
    var n := d.blocksize * 128;
    var bound := d.l1Size * n - MAP_OFFSET;
    d.l2Dirty := false;
    var clu := 0;
    assert d.l1Size == img.hdr.L1();
    while clu < bound
      invariant Converting(d, img, to, clu, before) && d.l1Size == img.hdr.L1()
      invariant bound == img.hdr.L1() * n - MAP_OFFSET
    {
      DivLess(clu + MAP_OFFSET, n, d.l1Size);
      ok := ConvertSlot(d, clu, to, img, before);
      if !ok {
        ConvertingIntact(d, img, to, clu, before);
        return;
      }
      clu := clu + 1;
    }
    AllBelow(img.hdr.L1(), n, bound);
    FinishConvert(d, to, img, clu, before);
    ok := true;
  }

  /** Writes back the last index cluster, then the signature, then syncs. */
  method FinishConvert(d: Delta, to: Version, ghost img: Img, ghost clu: nat, ghost before: seq<Snap>)
    requires Converting(d, img, to, clu, before)
    requires forall v: nat :: SlotBlock(v, img.hdr.Words()) < img.hdr.L1() ==> v < clu
    modifies d, d.file
    ensures Converted(img, d.file.cur, to) && d.file.cur == d.file.dur && d.file.log == []
    ensures before <= d.file.trace && ConvertSafe(img, to, d.file.trace, |before|)
  {
    if d.l2Dirty { WritebackIdx(d, img, to, |before|); }
    ghost var e := d.file.cur;
    assert e == d.Effective() && ConvertedIndex(img, e, clu, to);
    ConvertSafeStep(img, to, d.file.trace, |before|, Snap(img, d.file.log + [VersionAt(to)]));
    d.file.Write(VersionAt(to));
    SetVersion(img, e, clu, to);
    ConvertSafeStep(img, to, d.file.trace, |before|, Snap(d.file.cur, []));
    d.file.Fsync();
  }

  lemma SetVersion(img: Img, e: Img, clu: nat, to: Version)
    requires ConvertedIndex(img, e, clu, to)
    requires forall v: nat :: SlotBlock(v, img.hdr.Words()) < img.hdr.L1() ==> v < clu
    requires WellSized(img)
    ensures Converted(img, Apply(e, VersionAt(to)), to) && IndexOnly(img, to, Snap(Apply(e, VersionAt(to)), []))
  {
    assert forall v: nat :: Slot(Apply(e, VersionAt(to)), v) == Slot(e, v);
  }

  lemma AllBelow(l1: nat, n: nat, bound: int)
    requires n > 0 && bound == l1 * n - MAP_OFFSET
    ensures forall v: nat :: SlotBlock(v, n) < l1 ==> v < bound
  {
    forall v: nat | SlotBlock(v, n) < l1 ensures v < bound {
      if v + MAP_OFFSET >= l1 * n { DivAtLeast(v + MAP_OFFSET, n, l1); }
    }
  }
}
