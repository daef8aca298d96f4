/** The tail of the image that truncation will drop: every live block in it has a hole to move to. */
module RangeBuild {
  import opened Image
  import opened DeltaFile
  import opened Extents

  datatype Outcome = Done | Abort | BadFormat

  // ---------- counting ----------

  function Total(exts: seq<Extent>): nat {
    if exts == [] then 0 else Total(exts[..|exts| - 1]) + exts[|exts| - 1].len
  }

  /** Blocks `lo .. hi`. */
  function Interval(lo: nat, hi: nat): (s: set<nat>)
    requires lo <= hi
    ensures |s| == hi - lo && forall i :: i in s <==> lo <= i < hi
    decreases hi
  {
    if lo == hi then {} else Interval(lo, hi - 1) + {hi - 1}
  }

  lemma DisjointUnion(a: set<nat>, b: set<nat>)
    requires a !! b
    ensures |a + b| == |a| + |b|
  {
  }

  /** `s` is `t`, which ends before `lo`, and the interval `lo .. hi`. */
  lemma IntervalAdded(s: set<nat>, t: set<nat>, lo: nat, hi: nat)
    requires lo <= hi && (forall i: nat :: i in s <==> i in t || lo <= i < hi) && forall i: nat :: i in t ==> i < lo
    ensures |s| == |t| + (hi - lo)
  {
    assert s == t + Interval(lo, hi);
    DisjointUnion(t, Interval(lo, hi));
  }

  /** The blocks of the extents that lie below `end`. */
  ghost function Blocks(exts: seq<Extent>, end: nat): set<nat> {
    set i: nat | i in Interval(0, end) && BlockIn(exts, i)
  }

  lemma LastHolds(exts: seq<Extent>, i: nat)
    requires |exts| > 0 && Sorted(exts)
    ensures BlockIn(exts, i) <==> (BlockIn(exts[..|exts| - 1], i) || exts[|exts| - 1].Holds(i))
    ensures BlockIn(exts[..|exts| - 1], i) ==> i < exts[|exts| - 1].iblk
  {
    var init := exts[..|exts| - 1];
    if BlockIn(init, i) {
      var k :| 0 <= k < |init| && init[k].Holds(i);
      assert exts[k].Holds(i);
    }
    if BlockIn(exts, i) && !exts[|exts| - 1].Holds(i) {
      var k :| 0 <= k < |exts| && exts[k].Holds(i);
      assert init[k].Holds(i);
    }
  }

  /** Disjoint extents have as many blocks as their lengths add up to. */
  lemma {:induction false} TotalIsSize(exts: seq<Extent>, end: nat)
    requires Sorted(exts) && forall k :: 0 <= k < |exts| ==> exts[k].iblk + exts[k].len <= end
    ensures |Blocks(exts, end)| == Total(exts)
    decreases |exts|
  {
    if exts == [] {
      assert Blocks(exts, end) == {};
    } else {
      var init, last := exts[..|exts| - 1], exts[|exts| - 1];
      TotalIsSize(init, last.iblk);
      forall i: nat ensures i in Blocks(exts, end) <==>
        i in Blocks(init, last.iblk) || last.iblk <= i < last.iblk + last.len {
        LastHolds(exts, i);
      }
      IntervalAdded(Blocks(exts, end), Blocks(init, last.iblk), last.iblk, last.iblk + last.len);
    }
  }

  /** How many blocks the pieces with the given flag have. */
  function LenOf(rs: seq<Reloc>, free: bool): nat {
    if rs == [] then 0 else LenOf(rs[..|rs| - 1], free) + if rs[|rs| - 1].free == free then rs[|rs| - 1].ext.len else 0
  }

  ghost predicate FlagIn(rs: seq<Reloc>, free: bool, block: nat) {
    exists k :: 0 <= k < |rs| && rs[k].free == free && rs[k].ext.Holds(block)
  }

  ghost function FlagBlocks(rs: seq<Reloc>, free: bool, end: nat): set<nat> {
    set i: nat | i in Interval(0, end) && FlagIn(rs, free, i)
  }

  lemma LastFlag(rs: seq<Reloc>, free: bool, i: nat)
    requires |rs| > 0 && SortedRelocs(rs)
    ensures var last := rs[|rs| - 1]; FlagIn(rs, free, i) <==>
      (FlagIn(rs[..|rs| - 1], free, i) || (last.free == free && last.ext.Holds(i)))
    ensures FlagIn(rs[..|rs| - 1], free, i) ==> i < rs[|rs| - 1].ext.iblk
  {
    var init, last := rs[..|rs| - 1], rs[|rs| - 1];
    if FlagIn(init, free, i) {
      var k :| 0 <= k < |init| && init[k].free == free && init[k].ext.Holds(i);
      assert rs[k].ext.Holds(i);
    }
    if FlagIn(rs, free, i) && !(last.free == free && last.ext.Holds(i)) {
      var k :| 0 <= k < |rs| && rs[k].free == free && rs[k].ext.Holds(i);
      assert init[k].ext.Holds(i);
    }
  }

  lemma {:induction false} LenIsSize(rs: seq<Reloc>, free: bool, end: nat)
    requires SortedRelocs(rs) && forall k :: 0 <= k < |rs| ==> rs[k].ext.iblk + rs[k].ext.len <= end
    ensures |FlagBlocks(rs, free, end)| == LenOf(rs, free)
    decreases |rs|
  {
    if rs == [] {
      assert FlagBlocks(rs, free, end) == {};
    } else {
      var init, last := rs[..|rs| - 1], rs[|rs| - 1];
      var lo, hi := last.ext.iblk, last.ext.iblk + if last.free == free then last.ext.len else 0;
      LenIsSize(init, free, lo);
      forall i: nat ensures i in FlagBlocks(rs, free, end) <==> i in FlagBlocks(init, free, lo) || lo <= i < hi {
        LastFlag(rs, free, i);
      }
      IntervalAdded(FlagBlocks(rs, free, end), FlagBlocks(init, free, lo), lo, hi);
    }
  }

  ghost predicate RelocIn(rs: seq<Reloc>, block: nat) {
    exists k :: 0 <= k < |rs| && rs[k].ext.Holds(block)
  }

  // ---------- the pigeonhole argument ----------

  /** The tail has as many blocks as there are free ones, so it has as many live blocks as there are free
      blocks below it. */
  lemma Pigeonhole(free: set<nat>, tail: set<nat>)
    requires |free| == |tail|
    ensures |tail - free| == |free - tail|
  {
    assert free == (free - tail) + (free * tail);
    assert tail == (tail - free) + (free * tail);
    DisjointUnion(free - tail, free * tail);
    DisjointUnion(tail - free, free * tail);
  }

  /** The pieces that are not free have exactly as many blocks as are free below the tail. */
  lemma HolesSuffice(freemap: seq<Extent>, rs: seq<Reloc>, s: nat, end: nat)
    requires s <= end && Sorted(freemap) && (forall k :: 0 <= k < |freemap| ==> freemap[k].iblk + freemap[k].len <= end)
    requires Total(freemap) == end - s
    requires SortedRelocs(rs) && RightFlags(rs, freemap)
    requires (forall k :: 0 <= k < |rs| ==> s <= rs[k].ext.iblk && rs[k].ext.iblk + rs[k].ext.len <= end)
    requires forall i: nat :: s <= i < end ==> RelocIn(rs, i)
    ensures LenOf(rs, false) == |Blocks(freemap, s)|
  {
    var free, tail := Blocks(freemap, end), Interval(s, end);
    TotalIsSize(freemap, end);
    Pigeonhole(free, tail);
    LenIsSize(rs, false, end);
    NotFree(freemap, rs, s, end);
    assert free - tail == Blocks(freemap, s);
  }

  lemma NotFree(freemap: seq<Extent>, rs: seq<Reloc>, s: nat, end: nat)
    requires s <= end && RightFlags(rs, freemap)
    requires (forall k :: 0 <= k < |rs| ==> s <= rs[k].ext.iblk && rs[k].ext.iblk + rs[k].ext.len <= end)
    requires forall i: nat :: s <= i < end ==> RelocIn(rs, i)
    ensures Interval(s, end) - Blocks(freemap, end) == FlagBlocks(rs, false, end)
  {
    forall i: nat ensures i in Interval(s, end) - Blocks(freemap, end) <==> i in FlagBlocks(rs, false, end) {
      if i in Interval(s, end) {
        assert RelocIn(rs, i);
        var k :| 0 <= k < |rs| && rs[k].ext.Holds(i);
        assert rs[k].free <==> BlockIn(freemap, i);
      }
    }
  }

  // ---------- the reverse map of a range ----------

  /** The cluster number an index entry is divided by to give the file cluster. */
  lemma Divided(ioff: U32, bs: nat, version: Version)
    requires 0 < bs < U32_LIMIT
    ensures SecToIoff(bs, bs, version) > 0 && ioff / SecToIoff(bs, bs, version) == BlockOf(ioff, bs, version)
  {
    match version
    case V1 => assert SecToIoff(bs, bs, V1) == bs;
    case V2 =>
      DivUnique(bs, bs, 1, 0);
      MulDiv(ioff, bs);
  }

  /** Entries of `start .. end` below `clu` and nothing else, by file cluster. */
  ghost predicate RmapOf(img: Img, start: nat, end: nat, clu: nat, rmap: seq<U32>)
    requires img.hdr.blocksize > 0
  {
    && (forall i :: 0 <= i < |rmap| && rmap[i] != ZERO_INDEX ==>
          start <= i < end && rmap[i] < clu && Slot(img, rmap[i]) != 0 && Target(img, rmap[i]) == i)
    && (forall u: nat :: u < clu && Slot(img, u) != 0 && start <= Target(img, u) < end && Target(img, u) < |rmap| ==>
        rmap[Target(img, u)] == u)
  }

  /** The mapped blocks of a range. */
  function Found(rmap: seq<U32>, start: nat, end: nat): set<nat>
    requires start <= end <= |rmap|
  {
    set i | i in Interval(start, end) && rmap[i] != ZERO_INDEX
  }

  lemma FoundMore(rmap: seq<U32>, start: nat, end: nat, at: nat, x: U32)
    requires start <= at < end <= |rmap| && rmap[at] == ZERO_INDEX && x != ZERO_INDEX
    ensures |Found(rmap[at := x], start, end)| == |Found(rmap, start, end)| + 1
  {
    assert Found(rmap[at := x], start, end) == Found(rmap, start, end) + {at};
  }

  lemma {:induction false} SubsetSize(a: set<nat>, b: set<nat>)
    requires a <= b
    ensures |a| <= |b| && (|a| == |b| ==> a == b)
  {
    DisjointUnion(a, b - a);
    assert a + (b - a) == b;
  }

  lemma AllFound(rmap: seq<U32>, start: nat, end: nat)
    requires start <= end <= |rmap|
    ensures |Found(rmap, start, end)| <= end - start
    ensures |Found(rmap, start, end)| == end - start ==> forall i :: start <= i < end ==> rmap[i] != ZERO_INDEX
  {
    SubsetSize(Found(rmap, start, end), Interval(start, end));
    if |Found(rmap, start, end)| == end - start {
      forall i | start <= i < end ensures rmap[i] != ZERO_INDEX { assert i in Interval(start, end); }
    }
  }

  lemma SlotsInjective(img: Img, u: nat, v: nat)
    requires Valid(img) && u < img.hdr.L2() && v < img.hdr.L2() && Slot(img, u) != 0 && Slot(img, v) != 0
    requires Target(img, u) == Target(img, v)
    ensures u == v
  {
    EncBlockOf(Slot(img, u), img.hdr.blocksize, img.hdr.version);
    EncBlockOf(Slot(img, v), img.hdr.blocksize, img.hdr.version);
  }

  /** When every block of the range has been found, no later entry points into it. */
  lemma Complete(img: Img, start: nat, end: nat, clu: nat, rmap: seq<U32>)
    requires Valid(img) && clu <= img.hdr.L2() && RmapOf(img, start, end, clu, rmap) && end <= |rmap|
    requires forall i :: start <= i < end ==> rmap[i] != ZERO_INDEX
    ensures RmapOf(img, start, end, img.hdr.L2(), rmap)
  {
    forall u: nat | u < img.hdr.L2() && Slot(img, u) != 0 && start <= Target(img, u) < end
      ensures rmap[Target(img, u)] == u
    {
      SlotsInjective(img, u, rmap[Target(img, u)]);
    }
  }

  /** Cluster `clu` of a valid image, as the loop sees it: absent, or at block `b`. */
  lemma RmapStep(img: Img, start: nat, end: nat, clu: nat, rmap: seq<U32>)
    requires Valid(img) && clu < img.hdr.L2() && clu < ZERO_INDEX && RmapOf(img, start, end, clu, rmap)
    requires 0 < start <= end <= |rmap|
    ensures var b := Target(img, clu);
      if start <= b < end then
        Slot(img, clu) != 0 && rmap[b] == ZERO_INDEX &&
        RmapOf(img, start, end, clu + 1, rmap[..b] + [clu] + rmap[b + 1..])
      else RmapOf(img, start, end, clu + 1, rmap)
  {
    var b := Target(img, clu);
    if start <= b < end {
      assert Slot(img, clu) != 0;
      if rmap[b] != ZERO_INDEX { SlotsInjective(img, clu, rmap[b]); }
      var rmap' := rmap[..b] + [clu] + rmap[b + 1..];
      forall u: nat | u < clu + 1 && Slot(img, u) != 0 && start <= Target(img, u) < end
        ensures rmap'[Target(img, u)] == u
      {
        if u < clu && Target(img, u) == b { SlotsInjective(img, u, clu); }
      }
    }
  }

  /** Cluster `u` lies beyond block `limit`. */
  ghost predicate BeyondAt(img: Img, u: nat, limit: nat)
    requires img.hdr.blocksize > 0
  {
    u < img.hdr.L2() && Slot(img, u) != 0 && Target(img, u) >= limit
  }

  /** The part of the image invariant that looking up one cluster needs. */
  ghost predicate Located(img: Img) {
    && WellSized(img) && img.hdr.L1() <= |img.blocks|
    && forall v: nat :: v < img.hdr.L2() ==>
      SlotBlock(v, img.hdr.Words()) < img.hdr.L1() && (Slot(img, v) != 0 ==> Points(Slot(img, v), img))
  }

  lemma SlotPlace(img: Img, clu: nat)
    requires Located(img) && clu < img.hdr.L2()
    ensures var b, w := SlotBlock(clu, img.hdr.Words()), SlotWord(clu, img.hdr.Words());
      b < img.hdr.L1() <= |img.blocks| && w < |img.blocks[b]| && Slot(img, clu) == img.blocks[b][w]
  {
    SlotPosition(clu, img.hdr.Words());
  }

  /** The block cluster `clu` lies in, through the cache of one index cluster. */
  method LookUp(d: Delta, clu: nat) returns (b: nat)
    requires d.Synced() && Located(d.file.cur) && d.blocksize < U32_LIMIT && clu < d.l2Size
    modifies d`l2, d`l2Cache
    ensures d.Synced() && b == Target(d.file.cur, clu)
  {
    var n := d.blocksize * 128;
    var l2Cluster, l2Slot := SlotBlock(clu, n), SlotWord(clu, n);
    SlotPlace(d.file.cur, clu);
    if d.l2Cache != l2Cluster {
      d.l2 := d.file.ReadCluster(l2Cluster);
      d.l2Cache := l2Cluster;
    }
    Divided(d.l2[l2Slot], d.blocksize, d.version);
    b := d.l2[l2Slot] / SecToIoff(d.blocksize, d.blocksize, d.version);
  }

  /** The map with one entry recorded. */
  function Record(m: seq<U32>, at: nat, x: U32): (r: seq<U32>)
    requires at < |m|
    ensures |r| == |m|
  {
    m[..at] + [x] + m[at + 1..]
  }

  /** What the loop keeps after `clu` clusters. */
  ghost predicate Scanned(img: Img, start: nat, end: nat, clu: nat, m: seq<U32>, found: nat)
    requires img.hdr.blocksize > 0 && start <= end <= |m|
  {
    RmapOf(img, start, end, clu, m) && found == |Found(m, start, end)|
  }

  lemma ScannedStep(img: Img, start: nat, end: nat, clu: nat, m: seq<U32>, found: nat)
    requires Valid(img) && clu < img.hdr.L2() && clu < ZERO_INDEX && 0 < start <= end <= |m|
    requires Scanned(img, start, end, clu, m, found)
    ensures var b := Target(img, clu);
      if start <= b < end then Scanned(img, start, end, clu + 1, Record(m, b, clu), found + 1)
      else Scanned(img, start, end, clu + 1, m, found)
  {
    var b := Target(img, clu);
    RmapStep(img, start, end, clu, m);
    if start <= b < end {
      FoundMore(m, start, end, b, clu);
      assert m[b := clu] == Record(m, b, clu);
    }
  }

  lemma ScannedAll(img: Img, start: nat, end: nat, clu: nat, m: seq<U32>, found: nat)
    requires Valid(img) && clu <= img.hdr.L2() && start <= end <= |m| && Scanned(img, start, end, clu, m, found)
    requires found >= end - start || clu == img.hdr.L2()
    ensures Scanned(img, start, end, img.hdr.L2(), m, found)
  {
    AllFound(m, start, end);
    if clu < img.hdr.L2() { Complete(img, start, end, clu, m); }
  }

  /** `inv` survives cluster `clu`. */
  ghost predicate Survives(inv: (nat, seq<U32>, nat) -> bool, img: Img, start: nat, end: nat, clu: nat, m: seq<U32>,
        k: nat)
    requires img.hdr.blocksize > 0 && end <= |m| && clu < U32_LIMIT
  {
    var b := Target(img, clu);
    if start <= b < end then inv(clu + 1, Record(m, b, clu), k + 1) else inv(clu + 1, m, k)
  }

  /** Cluster `u` lies beyond block `limit`, and some block of the range is not mapped by the clusters before it. */
  ghost predicate StopsAt(img: Img, start: nat, end: nat, u: nat, limit: nat)
    requires img.hdr.blocksize > 0
  {
    BeyondAt(img, u, limit) && exists b :: start <= b < end && MissingBefore(img, b, u)
  }

  ghost predicate Stops(img: Img, start: nat, end: nat, limit: nat)
    requires img.hdr.blocksize > 0
  {
    exists u: nat :: StopsAt(img, start, end, u, limit)
  }

  ghost predicate MissingBefore(img: Img, b: nat, u: nat)
    requires img.hdr.blocksize > 0
  {
    forall v: nat :: v < u && Slot(img, v) != 0 ==> Target(img, v) != b
  }

  lemma StoppedShort(img: Img, start: nat, end: nat, u: nat, m: seq<U32>, found: nat)
    requires Valid(img) && start < end <= |m| && Scanned(img, start, end, u, m, found) && found < end - start
    requires u <= img.hdr.L2() < ZERO_INDEX && BeyondAt(img, u, |m|)
    ensures StopsAt(img, start, end, u, |m|)
  {
    FoundOrMissing(m, start, end);
    var b :| start <= b < end && m[b] == ZERO_INDEX;
    assert MissingBefore(img, b, u);
  }

  lemma FoundOrMissing(m: seq<U32>, start: nat, end: nat)
    requires start <= end <= |m|
    ensures |Found(m, start, end)| == end - start || exists b :: start <= b < end && m[b] == ZERO_INDEX
  {
    if forall b :: start <= b < end ==> m[b] != ZERO_INDEX {
      assert Found(m, start, end) == Interval(start, end);
      IntervalSize(start, end);
    }
  }

  lemma IntervalSize(lo: nat, hi: nat)
    requires lo <= hi
    ensures |Interval(lo, hi)| == hi - lo
    decreases hi
  {
    if lo < hi {
      IntervalSize(lo, hi - 1);
      assert Interval(lo, hi) == Interval(lo, hi - 1) + {hi - 1};
    }
  }

  /** The whole range was found before the first cluster beyond, if there is one. */
  lemma NotStopped(img: Img, start: nat, end: nat, stop: nat, m: seq<U32>, found: nat)
    requires Valid(img) && start < end <= |m| && Scanned(img, start, end, stop, m, found)
    requires stop == img.hdr.L2() || found >= end - start
    requires forall u: nat :: u < stop ==> !BeyondAt(img, u, |m|)
    ensures forall u: nat :: !StopsAt(img, start, end, u, |m|)
  {
    AllFound(m, start, end);
    forall u: nat, b | StopsAt(img, start, end, u, |m|) && start <= b < end ensures !MissingBefore(img, b, u) {
      assert m[b] < stop <= u && Slot(img, m[b]) != 0 && Target(img, m[b]) == b;
    }
  }

  /** `range_build_rmap` on a valid image. */
  method RangeBuildRmap(d: Delta, start: nat, end: nat, rmap: array<U32>) returns (r: Outcome, found: nat)
    requires d.Synced() && Valid(d.file.cur) && d.blocksize < U32_LIMIT && 0 < start && end <= rmap.Length
    modifies d`l2, d`l2Cache, rmap
    ensures d.Synced() && (r == Abort <==> start >= end || d.l2Size >= ZERO_INDEX)
    ensures r != Abort ==> (r == BadFormat <==> Stops(d.file.cur, start, end, rmap.Length))
    ensures r == Done ==>
      start < end && d.l2Size < ZERO_INDEX && Scanned(d.file.cur, start, end, d.file.cur.hdr.L2(), rmap[..], found)
  {
    found := 0;
    if start >= end { return Abort, found; }
    if d.l2Size >= ZERO_INDEX { return Abort, found; }
    Clear(rmap);
    d.l2Cache := -1;
    ghost var img := d.file.cur;
    assert Found(rmap[..], start, end) == {};
    ghost var inv := (clu: nat, m: seq<U32>, k: nat) => |m| == rmap.Length && Scanned(img, start, end, clu, m, k);
    forall clu: nat, m: seq<U32>, k: nat | clu < img.hdr.L2() && inv(clu, m, k)
      ensures |m| == rmap.Length && Survives(inv, img, start, end, clu, m, k)
    {
      ScannedStep(img, start, end, clu, m, k);
    }
    forall clu: nat, m: seq<U32>, k: nat | clu <= img.hdr.L2() && inv(clu, m, k) && k >= end - start
      ensures inv(img.hdr.L2(), m, k)
    {
      ScannedAll(img, start, end, clu, m, k);
    }
    ghost var stop, at, n;
    r, found, stop, at, n := RmapLoop(d, start, end, rmap, inv);
    if r == BadFormat {
      StoppedShort(img, start, end, stop, at, n);
    } else {
      NotStopped(img, start, end, stop, at, n);
    }
  }

  method RmapLoop(d: Delta, start: nat, end: nat, rmap: array<U32>, ghost inv: (nat, seq<U32>, nat) -> bool)
    returns (r: Outcome, found: nat, ghost stop: nat, ghost at: seq<U32>, ghost n: nat)
    requires d.Synced() && Located(d.file.cur) && d.blocksize < U32_LIMIT && 0 < start < end <= rmap.Length
    requires d.l2Size < ZERO_INDEX
    requires inv(0, rmap[..], 0)
    requires forall clu: nat, m: seq<U32>, k: nat {:trigger Survives(inv, d.file.cur, start, end, clu, m, k)} ::
      clu < d.l2Size && |m| == rmap.Length && inv(clu, m, k) ==> Survives(inv, d.file.cur, start, end, clu, m, k)
    requires forall clu: nat, m: seq<U32>, k: nat :: clu <= d.l2Size && inv(clu, m, k) && k >= end - start ==>
      inv(d.l2Size, m, k)
    modifies d`l2, d`l2Cache, rmap
    ensures d.Synced() && r != Abort && inv(stop, at, n) && stop <= d.l2Size && |at| == rmap.Length
    ensures forall u: nat :: u < stop ==> !BeyondAt(d.file.cur, u, rmap.Length)
    ensures r == BadFormat ==> n < end - start && BeyondAt(d.file.cur, stop, rmap.Length)
    ensures r == Done ==> inv(d.l2Size, rmap[..], found) && (stop == d.l2Size || n >= end - start)
  {
    found := 0;
    stop, at, n := 0, rmap[..], 0;
    var requested := end - start;
    var clu := 0;
    while clu < d.l2Size
      invariant 0 <= clu <= d.l2Size && d.Synced() && inv(clu, rmap[..], found) && found < requested
      invariant stop == clu && at == rmap[..] && n == found
      invariant forall u: nat :: u < stop ==> !BeyondAt(d.file.cur, u, rmap.Length)
    {
      assert Survives(inv, d.file.cur, start, end, clu, rmap[..], found);
      r, found := RmapEntry(d, start, end, rmap, clu, found, inv);
      if r != Done { return; }
      clu := clu + 1;
      stop, at, n := clu, rmap[..], found;
      if found >= requested { break; }
    }
    r := Done;
  }

  lemma BadMeansBeyond(img: Img, clu: nat, limit: nat)
    requires Located(img) && clu < img.hdr.L2() && limit > 0
    ensures Target(img, clu) >= limit || (Target(img, clu) != 0 && Target(img, clu) < img.hdr.L1()) <==>
      BeyondAt(img, clu, limit)
  {
    BlockOfSlot(img, clu);
  }

  method RmapEntry(d: Delta, start: nat, end: nat, rmap: array<U32>, clu: nat, found0: nat,
        ghost inv: (nat, seq<U32>, nat) -> bool)
    returns (r: Outcome, found: nat)
    requires d.Synced() && Located(d.file.cur) && d.blocksize < U32_LIMIT && 0 < end <= rmap.Length
    requires clu < d.l2Size < ZERO_INDEX
    requires Survives(inv, d.file.cur, start, end, clu, rmap[..], found0)
    modifies d`l2, d`l2Cache, rmap
    ensures d.Synced() && r != Abort && (r == BadFormat <==> BeyondAt(d.file.cur, clu, rmap.Length))
    ensures r == Done ==> inv(clu + 1, rmap[..], found)
  {
    found := found0;
    var ridx := LookUp(d, clu);
    BadMeansBeyond(d.file.cur, clu, rmap.Length);
    if ridx >= rmap.Length || (ridx != 0 && ridx < d.l1Size) { return BadFormat, found; }
    if start <= ridx < end {
      ghost var m := rmap[..];
      rmap[ridx] := clu;
      assert rmap[..] == Record(m, ridx, clu);
      found := found + 1;
    }
    r := Done;
  }

  lemma BlockOfSlot(img: Img, u: nat)
    requires Located(img) && u < img.hdr.L2()
    ensures if Slot(img, u) == 0 then Target(img, u) == 0 else Target(img, u) >= img.hdr.L1()
  {
    if Slot(img, u) == 0 { DivUnique(0, img.hdr.blocksize, 0, 0); }
  }

  method Clear(rmap: array<U32>)
    modifies rmap
    ensures forall i :: 0 <= i < rmap.Length ==> rmap[i] == ZERO_INDEX
  {
    var i := 0;
    while i < rmap.Length
      invariant 0 <= i <= rmap.Length && forall k :: 0 <= k < i ==> rmap[k] == ZERO_INDEX
    {
      rmap[i] := ZERO_INDEX;
      i := i + 1;
    }
  }

  // ---------- filling the gaps ----------

  /** Entry `x` of block `i` is the old one, or the cluster of a free extent if there was none. */
  ghost predicate FilledAt(was: U32, freemap: seq<Extent>, i: nat, x: U32) {
    x != ZERO_INDEX && if was != ZERO_INDEX then x == was else InExts(freemap, i, x)
  }

  /** Every entry of the tail is the cluster that lies there, or the cluster of a free extent. */
  ghost predicate Filled(m: seq<U32>, freemap: seq<Extent>, start: nat, end: nat, m': seq<U32>)
    requires end <= |m|
  {
    |m'| == |m| && forall i: nat :: start <= i < end ==> FilledAt(m[i], freemap, i, m'[i])
  }

  /** Clusters of the extents are less than the mark for "not mapped". */
  ghost predicate SmallClusters(exts: seq<Extent>) {
    forall k :: 0 <= k < |exts| ==> exts[k].clu + exts[k].len <= ZERO_INDEX
  }

  /** How many blocks of the range are not mapped. */
  function Gaps(m: seq<U32>, at: nat, end: nat): nat
    requires at <= end <= |m|
    decreases end - at
  {
    if at == end then 0 else Gaps(m, at + 1, end) + if m[at] == ZERO_INDEX then 1 else 0
  }

  lemma {:induction false} NoGaps(m: seq<U32>, at: nat, end: nat)
    requires at <= end <= |m| && Gaps(m, at, end) == 0
    ensures forall i :: at <= i < end ==> m[i] != ZERO_INDEX
    decreases end - at
  {
    if at < end { NoGaps(m, at + 1, end); }
  }

  lemma {:induction false} GapsAndFound(m: seq<U32>, at: nat, end: nat)
    requires at <= end <= |m|
    ensures Gaps(m, at, end) + |Found(m, at, end)| == end - at
    decreases end - at
  {
    if at == end {
      assert Found(m, at, end) == {};
    } else {
      GapsAndFound(m, at + 1, end);
      FoundTail(m, at, end);
    }
  }

  lemma FoundTail(m: seq<U32>, at: nat, end: nat)
    requires at < end <= |m|
    ensures |Found(m, at, end)| == |Found(m, at + 1, end)| + if m[at] != ZERO_INDEX then 1 else 0
  {
    var a, b := Found(m, at + 1, end), if m[at] != ZERO_INDEX then {at} else {};
    forall i ensures i in Found(m, at, end) <==> i in a + b {}
    assert Found(m, at, end) == a + b;
    DisjointUnion(a, b);
  }

  /** The first free extent, from `f0` on, that does not end before `at`. */
  method NextFree(freemap: seq<Extent>, f0: nat, at: nat) returns (f: nat)
    requires f0 <= |freemap| && Sorted(freemap) && Passed(freemap, f0, at)
    ensures f <= |freemap| && Passed(freemap, f, at)
    ensures BlockIn(freemap, at) ==>
      f < |freemap| && freemap[f].iblk <= at && InExts(freemap, at, freemap[f].clu + (at - freemap[f].iblk))
    ensures f < |freemap| ==> at < freemap[f].iblk + freemap[f].len
  {
    f := f0;
    while f < |freemap| && freemap[f].iblk + freemap[f].len <= at
      invariant f0 <= f <= |freemap| && Passed(freemap, f, at)
    {
      f := f + 1;
    }
    if BlockIn(freemap, at) {
      ghost var k :| 0 <= k < |freemap| && freemap[k].Holds(at);
      assert freemap[f].Has(at, freemap[f].clu + (at - freemap[f].iblk));
    }
  }

  /** `range_fix_gaps`. With as many gaps as it is told, all of them free, it fills them all. */
  method RangeFixGaps(freemap: seq<Extent>, start: nat, end: nat, toFix0: nat, rmap: array<U32>)
    requires start <= end <= rmap.Length && Sorted(freemap) && SmallClusters(freemap)
    requires toFix0 == Gaps(rmap[..], start, end) > 0
    requires forall i: nat :: start <= i < end && rmap[i] == ZERO_INDEX ==> BlockIn(freemap, i)
    modifies rmap
    ensures Filled(old(rmap[..]), freemap, start, end, rmap[..])
  {
    ghost var m := rmap[..];
    var ridx, f, toFix := start, 0, toFix0;
    while ridx < end
      invariant start <= ridx <= end && 0 <= f <= |freemap| && Passed(freemap, f, ridx)
      invariant toFix == Gaps(m, ridx, end) > 0
      invariant forall i: nat :: start <= i < ridx ==> FilledAt(m[i], freemap, i, rmap[i])
      invariant forall i :: ridx <= i < rmap.Length ==> rmap[i] == m[i]
    {
      if rmap[ridx] == ZERO_INDEX {
        f := NextFree(freemap, f, ridx);
        if f == |freemap| { return; }
        if freemap[f].iblk <= ridx {
          rmap[ridx] := freemap[f].clu + (ridx - freemap[f].iblk);
          toFix := toFix - 1;
          if toFix == 0 {
            NoGaps(m, ridx + 1, end);
            return;
          }
        }
      }
      ridx := ridx + 1;
    }
  }

  // ---------- the whole computation ----------

  /** Block `i` holds a cluster of the image. */
  ghost predicate Mapped(img: Img, i: nat)
    requires img.hdr.blocksize > 0
  {
    exists u: nat :: u < img.hdr.L2() && Slot(img, u) != 0 && Target(img, u) == i
  }

  /** The free extents lie between the index and the allocation head. */
  ghost predicate FreeRange(freemap: seq<Extent>, l1: nat, allocHead: nat) {
    Sorted(freemap) && SmallClusters(freemap) && forall k :: 0 <= k < |freemap| ==>
      l1 <= freemap[k].iblk && freemap[k].iblk + freemap[k].len <= allocHead
  }

  lemma TailPastIndex(freemap: seq<Extent>, l1: nat, allocHead: nat)
    requires FreeRange(freemap, l1, allocHead) && l1 <= allocHead
    ensures Total(freemap) <= allocHead - l1
  {
    TotalIsSize(freemap, allocHead);
    SubsetSize(Blocks(freemap, allocHead), Interval(l1, allocHead));
  }

  /** What is in the tail: the cluster the index names, or the cluster of the free extent. */
  ghost predicate TailEntry(img: Img, freemap: seq<Extent>, i: nat, c: nat)
    requires img.hdr.blocksize > 0
  {
    if Mapped(img, i) then c < img.hdr.L2() && Slot(img, c) != 0 && Target(img, c) == i else InExts(freemap, i, c)
  }

  /** The relocation list covers the whole tail `s .. end`, and its pieces that are not free have exactly as
      many blocks as are free below the tail. */
  ghost predicate TailCovered(img: Img, freemap: seq<Extent>, s: nat, end: nat, rs: seq<Reloc>)
    requires img.hdr.blocksize > 0
  {
    && SortedRelocs(rs) && RightFlags(rs, freemap)
    && (forall i: nat, c: nat :: InRelocs(rs, i, c) ==> s <= i < end && TailEntry(img, freemap, i, c))
    && (forall i: nat :: s <= i < end ==> RelocIn(rs, i))
    && LenOf(rs, false) == |Blocks(freemap, s)|
  }

  lemma MappedFound(img: Img, s: nat, end: nat, m: seq<U32>, i: nat)
    requires Valid(img) && s <= i < end <= |m| && RmapOf(img, s, end, img.hdr.L2(), m)
    ensures m[i] != ZERO_INDEX ==>
      Mapped(img, i) && m[i] < img.hdr.L2() && Slot(img, m[i]) != 0 && Target(img, m[i]) == i
    ensures m[i] == ZERO_INDEX ==> !Mapped(img, i) || img.hdr.L2() > ZERO_INDEX
  {
    if Mapped(img, i) {
      var u: nat :| u < img.hdr.L2() && Slot(img, u) != 0 && Target(img, u) == i;
      assert m[i] == u;
    }
  }

  lemma Covered(img: Img, freemap: seq<Extent>, s: nat, end: nat, m: seq<U32>, m': seq<U32>, range: seq<Extent>,
        rs: seq<Reloc>)
    requires Valid(img) && img.hdr.L2() < ZERO_INDEX && s <= end <= |m| && RmapOf(img, s, end, img.hdr.L2(), m)
    requires Filled(m, freemap, s, end, m') && Exact(m', s, end, range) && SplitOf(rs, range) && RightFlags(rs, freemap)
    requires FreeRange(freemap, 0, end) && Total(freemap) == end - s
    ensures TailCovered(img, freemap, s, end, rs)
  {
    forall i: nat, c: nat | InRelocs(rs, i, c) ensures s <= i < end && TailEntry(img, freemap, i, c) {
      assert InExts(range, i, c);
      assert FilledAt(m[i], freemap, i, m'[i]);
      MappedFound(img, s, end, m, i);
    }
    forall i: nat | s <= i < end ensures RelocIn(rs, i) {
      assert FilledAt(m[i], freemap, i, m'[i]);
      assert InExts(range, i, m'[i]);
      var k :| 0 <= k < |rs| && rs[k].ext.Has(i, m'[i]);
      assert rs[k].ext.Holds(i);
    }
    forall k | 0 <= k < |rs| ensures s <= rs[k].ext.iblk && rs[k].ext.iblk + rs[k].ext.len <= end {
      var e := rs[k].ext;
      assert e.Has(e.iblk, e.clu) && e.Has(e.iblk + e.len - 1, e.clu + e.len - 1);
      assert InRelocs(rs, e.iblk, e.clu) && InRelocs(rs, e.iblk + e.len - 1, e.clu + e.len - 1);
    }
    HolesSuffice(freemap, rs, s, end);
  }

  /** The first half: the reverse map of the tail, gaps filled. */
  method FillTail(d: Delta, s: nat, allocHead: nat, rmap: array<U32>, freemap: seq<Extent>)
    returns (r: Outcome, ghost m: seq<U32>)
    requires d.Synced() && Valid(d.file.cur) && d.blocksize < U32_LIMIT && 0 < s <= allocHead <= rmap.Length
    requires Sorted(freemap) && SmallClusters(freemap)
    requires forall i: nat :: s <= i < allocHead ==> Mapped(d.file.cur, i) || BlockIn(freemap, i)
    modifies d`l2, d`l2Cache, rmap
    ensures r == Abort <==> s == allocHead || d.l2Size >= ZERO_INDEX
    ensures r != Abort ==> (r == BadFormat <==> Stops(d.file.cur, s, allocHead, rmap.Length))
    ensures r == Done ==>
      d.l2Size < ZERO_INDEX && |m| == rmap.Length && RmapOf(d.file.cur, s, allocHead, d.file.cur.hdr.L2(), m)
    ensures r == Done ==> Filled(m, freemap, s, allocHead, rmap[..])
  {
    var n;
    r, n := RangeBuildRmap(d, s, allocHead, rmap);
    m := rmap[..];
    if r != Done { return; }
    forall i: nat | s <= i < allocHead && m[i] == ZERO_INDEX ensures BlockIn(freemap, i) {
      MappedFound(d.file.cur, s, allocHead, m, i);
    }
    AllFound(m, s, allocHead);
    GapsAndFound(m, s, allocHead);
    if n != allocHead - s { RangeFixGaps(freemap, s, allocHead, allocHead - s - n, rmap); }
  }

  /** `range_build`. When every block of the tail holds a cluster or is free, every live block of the tail has
      a hole below the tail to move to. */
  method RangeBuild(d: Delta, allocHead: nat, nFree: nat, rmap: array<U32>, freemap: seq<Extent>)
    returns (r: Outcome, range: seq<Extent>, rs: seq<Reloc>)
    requires d.Synced() && Valid(d.file.cur) && d.blocksize < U32_LIMIT && d.l1Size <= allocHead <= rmap.Length
    requires FreeRange(freemap, d.l1Size, allocHead) && Total(freemap) == nFree <= allocHead
    requires forall i: nat :: allocHead - nFree <= i < allocHead ==> Mapped(d.file.cur, i) || BlockIn(freemap, i)
    modifies d`l2, d`l2Cache, rmap
    ensures r == Abort <==> nFree == 0 || d.l2Size >= ZERO_INDEX
    ensures r != Abort ==>
      (r == BadFormat <==> Stops(d.file.cur, allocHead - nFree, allocHead, rmap.Length))
    ensures r == Done ==> Sorted(range) && Maximal(range) && SplitOf(rs, range)
    ensures r == Done ==> TailCovered(d.file.cur, freemap, allocHead - nFree, allocHead, rs)
  {
    range, rs := [], [];
    TailPastIndex(freemap, d.l1Size, allocHead);
    var s := allocHead - nFree;
    ghost var m;
    r, m := FillTail(d, s, allocHead, rmap, freemap);
    if r != Done { return; }
    range := Rmap2Freemap(rmap, s, allocHead, []);
    assert range[0..] == range;
    var ok;
    ok, rs := RangeSplit(range, freemap);
    if !ok { return Abort, range, rs; }
    Covered(d.file.cur, freemap, s, allocHead, m, rmap[..], range, rs);
  }
}
