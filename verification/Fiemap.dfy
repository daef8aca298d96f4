/** From the balloon file's extents in bytes to the extents of freed clusters. */
module Fiemap {
  import opened Image
  import opened DeltaFile
  import opened Extents
  import opened RangeBuild

  /** `len` bytes of the device from `pos` on. */
  datatype Span = Span(pos: nat, len: nat) {
    /** The whole of device cluster `k` lies in the span. */
    predicate Whole(k: nat, cluster: nat) { pos <= k * cluster && (k + 1) * cluster <= pos + len }
  }

  function RoundDown(x: nat, cluster: nat): nat requires cluster > 0 { x / cluster * cluster }

  /** What `fiemap_adjust` makes of one extent. */
  function Adjusted(s: Span, cluster: nat): Span
    requires cluster > 0
  {
    var pos := RoundDown(s.pos + cluster - 1, cluster);
    if pos >= s.pos + s.len then Span(0, 0)
    else
      var len := RoundDown(s.len - (pos - s.pos), cluster);
      if len == 0 then Span(0, 0) else Span(pos, len)
  }

  lemma CeilBound(x: nat, k: nat, c: nat)
    requires c > 0
    ensures x <= k * c <==> (x + c - 1) / c <= k
  {
    var up := (x + c - 1) / c;
    assert up * c <= x + c - 1 < (up + 1) * c;
    MulMono(up, k, c);
    MulMono(k + 1, up, c);
  }

  lemma FloorBound(e: nat, k: nat, c: nat)
    requires c > 0
    ensures k * c <= e <==> k <= e / c
  {
    var q := e / c;
    assert q * c <= e < (q + 1) * c;
    MulMono(k, q, c);
    MulMono(q + 1, k, c);
  }

  lemma DivShift(e: nat, up: nat, c: nat)
    requires c > 0 && up * c <= e
    ensures (e - up * c) / c == e / c - up
  {
    var q := e / c;
    var r := e % c;
    FloorBound(e, up, c);
    assert e - up * c == (q - up) * c + r;
    DivUnique(e - up * c, c, q - up, r);
  }

  /** The adjusted extent is made of whole clusters: exactly those that lie wholly in the extent. */
  lemma AdjustExact(s: Span, c: nat, k: nat)
    requires c > 0
    ensures var a := Adjusted(s, c); a.pos % c == 0 && a.len % c == 0 && (a.pos / c <= k < a.pos / c + a.len / c <==>
        s.Whole(k, c))
  {
    var up, e := (s.pos + c - 1) / c, s.pos + s.len;
    CeilBound(s.pos, k, c);
    CeilBound(s.pos, up, c);
    FloorBound(e, k + 1, c);
    MulDiv(up, c);
    FloorBound(e, up, c);
    if up * c < e {
      DivShift(e, up, c);
      MulDiv(e / c - up, c);
      assert s.len - (up * c - s.pos) == e - up * c;
    }
  }

  method FiemapAdjust(extents: array<Span>, blocksize: nat)
    requires blocksize > 0
    modifies extents
    ensures forall i :: 0 <= i < extents.Length ==> extents[i] == Adjusted(old(extents[i]), blocksize * SECTOR_SIZE)
  {
    var cluster := blocksize * SECTOR_SIZE;
    var i := 0;
    while i < extents.Length
      invariant 0 <= i <= extents.Length
      invariant forall k :: 0 <= k < extents.Length ==>
        extents[k] == if k < i then Adjusted(old(extents[k]), cluster) else old(extents[k])
    {
      var pos := (extents[i].pos + cluster - 1) / cluster * cluster;
      if pos >= extents[i].pos + extents[i].len {
        extents[i] := Span(0, 0);
      } else {
        extents[i] := extents[i].(len := extents[i].len - (pos - extents[i].pos));
        extents[i] := extents[i].(pos := pos);
        extents[i] := extents[i].(len := extents[i].len / cluster * cluster);
        if extents[i].len == 0 { extents[i] := extents[i].(pos := 0); }
      }
      i := i + 1;
    }
  }

  // ---------- the reverse map of the balloon's clusters ----------

  /** The entries of clusters `done`, by file cluster, and nothing else. */
  ghost predicate RmapOn(img: Img, done: set<nat>, m: seq<U32>)
    requires img.hdr.blocksize > 0
  {
    && (forall i :: 0 <= i < |m| && m[i] != ZERO_INDEX ==>
        m[i] in done && m[i] < img.hdr.L2() && Slot(img, m[i]) != 0 && Target(img, m[i]) == i)
    && (forall u: nat :: u in done && u < img.hdr.L2() && Slot(img, u) != 0 ==>
        Target(img, u) < |m| && m[Target(img, u)] == u)
  }

  /** Cluster `u` has no entry in the index at all. */
  predicate PastIndex(img: Img, u: nat)
    requires img.hdr.blocksize > 0
  {
    SlotBlock(u, img.hdr.Words()) >= img.hdr.L1()
  }

  lemma EntryStep(img: Img, done: set<nat>, m: seq<U32>, u: nat)
    requires Valid(img) && RmapOn(img, done, m) && u < ZERO_INDEX && !PastIndex(img, u)
    ensures if Slot(img, u) == 0 then RmapOn(img, done + {u}, m)
      else u < img.hdr.L2() && Target(img, u) >= img.hdr.L1() && (Target(img, u) < |m| ==>
          RmapOn(img, done + {u}, Record(m, Target(img, u), u)))
  {
    if Slot(img, u) != 0 {
      var b := Target(img, u);
      assert u < img.hdr.L2();
      if b < |m| {
        var m' := Record(m, b, u);
        forall v: nat | v in done + {u} && v < img.hdr.L2() && Slot(img, v) != 0
          ensures Target(img, v) < |m| && m'[Target(img, v)] == v
        {
          if Target(img, v) == b { SlotsInjective(img, u, v); }
        }
      }
    }
  }

  /** `inv` survives cluster `u`. */
  ghost predicate EntrySurvives(inv: (nat, seq<U32>) -> bool, img: Img, u: nat, m: seq<U32>)
    requires img.hdr.blocksize > 0 && u < U32_LIMIT
  {
    if Slot(img, u) == 0 then inv(u + 1, m)
    else u < img.hdr.L2() && Target(img, u) >= img.hdr.L1() && (Target(img, u) < |m| ==>
        inv(u + 1, Record(m, Target(img, u), u)))
  }

  /** Entry `j` of the cached index cluster, which is cluster `u`. */
  method ProcessEntry(d: Delta, rmap: array<U32>, u: nat, j: nat, ghost img: Img, ghost inv: (nat, seq<U32>) -> bool)
    returns (r: Outcome)
    requires 0 < d.blocksize == img.hdr.blocksize < U32_LIMIT && d.version == img.hdr.version
    requires d.l1Size == img.hdr.L1()
    requires u < ZERO_INDEX && j < |d.l2| && d.l2[j] == Slot(img, u) && EntrySurvives(inv, img, u, rmap[..])
    modifies rmap
    ensures r != Abort && (r == BadFormat <==> BeyondAt(img, u, rmap.Length))
    ensures r == Done ==> inv(u + 1, rmap[..])
  {
    ghost var m := rmap[..];
    if d.l2[j] == 0 { return Done; }
    Divided(d.l2[j], d.blocksize, d.version);
    var ridx := d.l2[j] / SecToIoff(d.blocksize, d.blocksize, d.version);
    if ridx >= rmap.Length || ridx < d.l1Size { return BadFormat; }
    rmap[ridx] := u;
    assert rmap[..] == Record(m, ridx, u);
    r := Done;
  }

  lemma RowPlace(img: Img, l2Cluster: nat, j: nat, u: nat)
    requires WellSized(img) && l2Cluster < img.hdr.L1() <= |img.blocks| && j < img.hdr.Words()
    requires l2Cluster * img.hdr.Words() + j == u + MAP_OFFSET
    ensures !PastIndex(img, u) && |img.blocks[l2Cluster]| == img.hdr.Words() && Slot(img, u) == img.blocks[l2Cluster][j]
  {
    SlotAt(l2Cluster, j, img.hdr.Words());
  }

  /** A cluster of `lo .. hi` lies beyond block `limit`. */
  ghost predicate SomeBeyond(img: Img, lo: nat, hi: nat, limit: nat)
    requires img.hdr.blocksize > 0
  {
    exists u: nat :: lo <= u < hi && BeyondAt(img, u, limit)
  }

  /** All clusters of `lo .. hi` have an entry, and none lies beyond block `limit`. */
  ghost predicate AllInside(img: Img, lo: nat, hi: nat, limit: nat)
    requires img.hdr.blocksize > 0
  {
    forall u: nat :: lo <= u < hi ==> !PastIndex(img, u) && !BeyondAt(img, u, limit)
  }

  /** The inner loop: entries `l2Slot .. last` of the cached index cluster. */
  method ProcessRow(d: Delta, rmap: array<U32>, l2Cluster: nat, l2Slot: nat, last: nat, ghost clu: nat,
        ghost inv: (nat, seq<U32>) -> bool)
    returns (r: Outcome)
    requires d.Synced() && d.blocksize < U32_LIMIT && d.l2Cache == l2Cluster && l2Slot < last <= d.blocksize * 128
    requires l2Cluster * (d.blocksize * 128) + l2Slot == clu + MAP_OFFSET && clu + (last - l2Slot) <= ZERO_INDEX
    requires inv(clu, rmap[..])
    requires forall u: nat, m: seq<U32> {:trigger EntrySurvives(inv, d.file.cur, u, m)} ::
      u < ZERO_INDEX && |m| == rmap.Length && inv(u, m) && !PastIndex(d.file.cur, u) ==>
        EntrySurvives(inv, d.file.cur, u, m)
    modifies rmap
    ensures r != Abort && (r == BadFormat ==> SomeBeyond(d.file.cur, clu, clu + (last - l2Slot), rmap.Length))
    ensures r == Done ==> AllInside(d.file.cur, clu, clu + (last - l2Slot), rmap.Length)
    ensures r == Done ==> inv(clu + (last - l2Slot), rmap[..])
  {
    var j, n := l2Slot, d.blocksize * 128;
    while j < last
      invariant l2Slot <= j <= last && inv(clu + (j - l2Slot), rmap[..])
      invariant AllInside(d.file.cur, clu, clu + (j - l2Slot), rmap.Length)
    {
      var u := l2Cluster * n + j - MAP_OFFSET;
      RowPlace(d.file.cur, l2Cluster, j, u);
      assert EntrySurvives(inv, d.file.cur, u, rmap[..]);
      r := ProcessEntry(d, rmap, u, j, d.file.cur, inv);
      if r != Done { return; }
      j := j + 1;
    }
    r := Done;
  }

  /** `fiemap_extent_process`: clusters `clu0 .. clu0 + len0`, one index cluster after the other. */
  method FiemapExtentProcess(clu0: nat, len0: nat, rmap: array<U32>, d: Delta, ghost inv: (nat, seq<U32>) -> bool)
    returns (r: Outcome)
    requires d.Synced() && d.blocksize < U32_LIMIT && clu0 + len0 + MAP_OFFSET <= ZERO_INDEX && inv(clu0, rmap[..])
    requires forall u: nat, m: seq<U32> {:trigger EntrySurvives(inv, d.file.cur, u, m)} ::
      u < ZERO_INDEX && |m| == rmap.Length && inv(u, m) && !PastIndex(d.file.cur, u) ==>
        EntrySurvives(inv, d.file.cur, u, m)
    modifies d`l2, d`l2Cache, rmap
    ensures d.Synced() && (r == BadFormat ==> SomeBeyond(d.file.cur, clu0, clu0 + len0, rmap.Length))
    ensures r == Done ==> AllInside(d.file.cur, clu0, clu0 + len0, rmap.Length)
    ensures r == Abort ==> exists u :: clu0 <= u < clu0 + len0 && PastIndex(d.file.cur, u)
    ensures r == Done ==> inv(clu0 + len0, rmap[..])
  {
    var clu: nat, len: nat, n := clu0, len0, d.blocksize * 128;
    while len > 0
      invariant clu0 <= clu && clu + len == clu0 + len0 && d.Synced() && inv(clu, rmap[..])
      invariant AllInside(d.file.cur, clu0, clu, rmap.Length)
    {
      var l2Cluster, l2Slot := SlotBlock(clu, n), SlotWord(clu, n);
      SlotPosition(clu, n);
      var last := if l2Slot + len < n then l2Slot + len else n;
      if l2Cluster >= d.l1Size {
        assert PastIndex(d.file.cur, clu);
        return Abort;
      }
      if d.l2Cache != l2Cluster {
        d.l2 := d.file.ReadCluster(l2Cluster);
        d.l2Cache := l2Cluster;
      }
      r := ProcessRow(d, rmap, l2Cluster, l2Slot, last, clu, inv);
      if r != Done { return; }
      clu := clu + (last - l2Slot);
      len := len - (last - l2Slot);
    }
    r := Done;
  }

  // ---------- all extents ----------

  predicate WholeClusters(s: Span, cluster: nat)
    requires cluster > 0
  {
    s.pos % cluster == 0 && s.len % cluster == 0
  }

  /** The clusters of aligned extents. */
  ghost function ClustersOf(s: seq<Span>, cluster: nat): set<nat>
    requires cluster > 0
  {
    if s == [] then {}
    else var last := s[|s| - 1]; ClustersOf(s[..|s| - 1], cluster) + SpanClusters(last, cluster)
  }

  lemma {:induction false} SpanIn(s: seq<Span>, cluster: nat, k: nat, u: nat)
    requires cluster > 0 && k < |s| && u in SpanClusters(s[k], cluster)
    ensures u in ClustersOf(s, cluster)
    decreases |s|
  {
    if k < |s| - 1 { SpanIn(s[..|s| - 1], cluster, k, u); }
  }

  lemma {:induction false} SomeSpan(s: seq<Span>, cluster: nat, u: nat) returns (k: nat)
    requires cluster > 0 && u in ClustersOf(s, cluster)
    ensures k < |s| && u in SpanClusters(s[k], cluster)
    decreases |s|
  {
    k := |s| - 1;
    if u !in SpanClusters(s[k], cluster) { k := SomeSpan(s[..|s| - 1], cluster, u); }
  }

  /** The extents lie on a device whose clusters have 32-bit numbers. */
  ghost predicate OnDevice(s: seq<Span>, cluster: nat)
    requires cluster > 0
  {
    forall k :: 0 <= k < |s| ==> Fits32(s[k], cluster)
  }

  predicate Fits32(s: Span, cluster: nat)
    requires cluster > 0
  {
    (s.pos + s.len) / cluster + MAP_OFFSET <= ZERO_INDEX
  }

  lemma OnDeviceAt(s: Span, cluster: nat)
    requires cluster > 0 && Fits32(s, cluster)
    ensures s.pos / cluster + s.len / cluster + MAP_OFFSET <= ZERO_INDEX
  {
    var a, b := s.pos / cluster, s.len / cluster;
    assert a * cluster <= s.pos && b * cluster <= s.len;
    assert (a + b) * cluster == a * cluster + b * cluster;
    DivAtLeast(s.pos + s.len, cluster, a + b);
  }

  function SpanClusters(s: Span, cluster: nat): set<nat>
    requires cluster > 0
  {
    Interval(s.pos / cluster, s.pos / cluster + s.len / cluster)
  }

  ghost predicate SpanBeyond(img: Img, e: Span, cluster: nat, limit: nat)
    requires img.hdr.blocksize > 0 && cluster > 0
  {
    exists u: nat :: u in SpanClusters(e, cluster) && BeyondAt(img, u, limit)
  }

  /** One extent. `inv` is what its entries keep. */
  method BuildExtent(e: Span, rmap: array<U32>, d: Delta, ghost inv: (nat, seq<U32>) -> bool) returns (r: Outcome)
    requires d.Synced() && d.blocksize < U32_LIMIT && inv(FirstCluster(e, d.blocksize * SECTOR_SIZE), rmap[..])
    requires Fits32(e, d.blocksize * SECTOR_SIZE)
    requires forall u: nat, m: seq<U32> {:trigger EntrySurvives(inv, d.file.cur, u, m)} ::
      u < ZERO_INDEX && |m| == rmap.Length && inv(u, m) && !PastIndex(d.file.cur, u) ==>
        EntrySurvives(inv, d.file.cur, u, m)
    modifies d`l2, d`l2Cache, rmap
    ensures d.Synced() && (r == BadFormat ==> SpanBeyond(d.file.cur, e, d.blocksize * SECTOR_SIZE, rmap.Length))
    ensures r == Done ==> AllInside(d.file.cur, FirstCluster(e, d.blocksize * SECTOR_SIZE),
      EndCluster(e, d.blocksize * SECTOR_SIZE), rmap.Length)
    ensures !WholeClusters(e, d.blocksize * SECTOR_SIZE) ==> r == Abort
    ensures r == Done ==> inv(EndCluster(e, d.blocksize * SECTOR_SIZE), rmap[..])
    ensures r == Abort && WholeClusters(e, d.blocksize * SECTOR_SIZE) ==>
      exists u :: u in SpanClusters(e, d.blocksize * SECTOR_SIZE) && PastIndex(d.file.cur, u)
  {
    var cluster := d.blocksize * SECTOR_SIZE;
    var clu, len := e.pos / cluster, e.len / cluster;
    OnDeviceAt(e, cluster);
    ExactlyWhole(e, cluster);
    if clu * cluster != e.pos || len * cluster != e.len || clu >= ZERO_INDEX || len >= ZERO_INDEX { return Abort; }
    r := FiemapExtentProcess(clu, len, rmap, d, inv);
  }

  lemma ExactlyWhole(e: Span, cluster: nat)
    requires cluster > 0
    ensures WholeClusters(e, cluster) <==> e.pos / cluster * cluster == e.pos && e.len / cluster * cluster == e.len
  {
    assert e.pos == e.pos / cluster * cluster + e.pos % cluster;
    assert e.len == e.len / cluster * cluster + e.len % cluster;
  }

  function FirstCluster(e: Span, cluster: nat): nat
    requires cluster > 0
  {
    e.pos / cluster
  }

  function EndCluster(e: Span, cluster: nat): nat
    requires cluster > 0
  {
    e.pos / cluster + e.len / cluster
  }

  /** The cluster the `k`-th extent starts at. */
  function StartCluster(s: seq<Span>, k: nat, cluster: nat): nat
    requires cluster > 0
  {
    if k < |s| then FirstCluster(s[k], cluster) else 0
  }

  /** What the `k`-th extent keeps up to cluster `u`: the clusters of the extents before it, and its own below `u`. */
  ghost predicate Kept(img: Img, s: seq<Span>, cluster: nat, k: nat, u: nat, m: seq<U32>)
    requires img.hdr.blocksize > 0 && cluster > 0
  {
    k <= |s| && StartCluster(s, k, cluster) <= u &&
    RmapOn(img, ClustersOf(s[..k], cluster) + Interval(StartCluster(s, k, cluster), u), m)
  }

  lemma KeptSets(s: seq<Span>, cluster: nat, k: nat)
    requires cluster > 0 && k < |s|
    ensures var at := StartCluster(s, k + 1, cluster);
      ClustersOf(s[..k + 1], cluster) + Interval(at, at) == ClustersOf(s[..k], cluster) + SpanClusters(s[k], cluster)
  {
    assert s[..k + 1][..k] == s[..k] && s[..k + 1][k] == s[k];
    assert Interval(StartCluster(s, k + 1, cluster), StartCluster(s, k + 1, cluster)) == {};
  }

  lemma KeptNext(img: Img, s: seq<Span>, cluster: nat, k: nat, m: seq<U32>)
    requires img.hdr.blocksize > 0 && cluster > 0 && k < |s| && Kept(img, s, cluster, k, EndCluster(s[k], cluster), m)
    ensures Kept(img, s, cluster, k + 1, StartCluster(s, k + 1, cluster), m)
  {
    KeptSets(s, cluster, k);
  }

  lemma KeptSurvives(img: Img, s: seq<Span>, cluster: nat, k: nat, u: nat, m: seq<U32>, inv: (nat, seq<U32>) -> bool)
    requires Valid(img) && cluster > 0 && k <= |s| && u < ZERO_INDEX && !PastIndex(img, u)
    requires Kept(img, s, cluster, k, u, m)
    requires forall u: nat, m :: inv(u, m) <==> Kept(img, s, cluster, k, u, m)
    ensures EntrySurvives(inv, img, u, m)
  {
    var at, before := StartCluster(s, k, cluster), ClustersOf(s[..k], cluster);
    assert before + Interval(at, u + 1) == before + Interval(at, u) + {u};
    EntryStep(img, before + Interval(at, u), m, u);
  }

  /** Some cluster of the extents is past the end of the index. */
  ghost predicate TooLarge(img: Img, s: seq<Span>, cluster: nat)
    requires img.hdr.blocksize > 0 && cluster > 0
  {
    exists k, u :: 0 <= k < |s| && u in SpanClusters(s[k], cluster) && PastIndex(img, u)
  }

  /** All clusters of the extent have entries, and none lies beyond block `limit`. */
  ghost predicate SpanInside(img: Img, e: Span, cluster: nat, limit: nat)
    requires img.hdr.blocksize > 0 && cluster > 0
  {
    AllInside(img, FirstCluster(e, cluster), EndCluster(e, cluster), limit)
  }

  /** `fiemap_build_rmap`. `rows(k)` is what the entries of the `k`-th extent keep. */
  method FiemapBuildRmap(extents: array<Span>, rmap: array<U32>, d: Delta, ghost rows: nat -> (nat, seq<U32>) -> bool)
    returns (r: Outcome)
    requires d.Synced() && d.blocksize < U32_LIMIT && OnDevice(extents[..], d.blocksize * SECTOR_SIZE)
    requires forall m :: |m| == rmap.Length && (forall i :: 0 <= i < |m| ==> m[i] == ZERO_INDEX) ==>
      rows(0)(StartCluster(extents[..], 0, d.blocksize * SECTOR_SIZE), m)
    requires forall k: nat, u: nat, m: seq<U32> {:trigger EntrySurvives(rows(k), d.file.cur, u, m)} ::
      u < ZERO_INDEX && |m| == rmap.Length && rows(k)(u, m) && !PastIndex(d.file.cur, u) ==>
        EntrySurvives(rows(k), d.file.cur, u, m)
    requires forall k: nat, m: seq<U32> ::
      k < extents.Length && rows(k)(EndCluster(extents[k], d.blocksize * SECTOR_SIZE), m) ==>
      rows(k + 1)(StartCluster(extents[..], k + 1, d.blocksize * SECTOR_SIZE), m)
    modifies d`l2, d`l2Cache, rmap
    ensures d.Synced()
    ensures r == BadFormat ==> exists k ::
      0 <= k < extents.Length && SpanBeyond(d.file.cur, extents[k], d.blocksize * SECTOR_SIZE, rmap.Length)
    ensures r == Done ==> forall k :: 0 <= k < extents.Length ==>
      SpanInside(d.file.cur, extents[k], d.blocksize * SECTOR_SIZE, rmap.Length)
    ensures r == Done ==> forall k :: 0 <= k < extents.Length ==>
      WholeClusters(extents[k], d.blocksize * SECTOR_SIZE)
    ensures r == Done ==> rows(extents.Length)(0, rmap[..])
    ensures r == Abort && (forall k :: 0 <= k < extents.Length ==>
        WholeClusters(extents[k], d.blocksize * SECTOR_SIZE)) ==>
      TooLarge(d.file.cur, extents[..], d.blocksize * SECTOR_SIZE)
  {
    Clear(rmap);
    d.l2Cache := -1;
    ghost var s, c := extents[..], d.blocksize * SECTOR_SIZE;
    var i := 0;
    while i < extents.Length
      invariant 0 <= i <= extents.Length && d.Synced() && rows(i)(StartCluster(s, i, c), rmap[..])
      invariant forall k :: 0 <= k < i ==> SpanInside(d.file.cur, s[k], c, rmap.Length) && WholeClusters(s[k], c)
    {
      r := BuildExtent(extents[i], rmap, d, rows(i));
      if r == Abort && WholeClusters(extents[i], d.blocksize * SECTOR_SIZE) { assert s[i] == extents[i]; }
      if r != Done { return; }
      i := i + 1;
    }
    r := Done;
  }

  // ---------- the pipeline ----------

  /** Cluster `u` lies wholly in one of the extents. */
  ghost predicate InBalloon(s: seq<Span>, cluster: nat, u: nat) {
    exists k :: 0 <= k < |s| && s[k].Whole(u, cluster)
  }

  lemma AdjustedClusters(s: seq<Span>, a: seq<Span>, c: nat, u: nat)
    requires c > 0 && |a| == |s| && forall k :: 0 <= k < |s| ==> a[k] == Adjusted(s[k], c)
    ensures u in ClustersOf(a, c) <==> InBalloon(s, c, u)
  {
    if InBalloon(s, c, u) {
      var k :| 0 <= k < |s| && s[k].Whole(u, c);
      AdjustExact(s[k], c, u);
      SpanIn(a, c, k, u);
    }
    if u in ClustersOf(a, c) {
      var k := SomeSpan(a, c, u);
      AdjustExact(s[k], c, u);
    }
  }

  lemma NoStray(img: Img, done: set<nat>, m: seq<U32>, end: nat)
    requires img.hdr.blocksize > 0 && Valid(img) && img.hdr.L1() > 0 && RmapOn(img, done, m)
    ensures !Loses(m, 0, end)
  {
    if |m| > 0 { assert m[0] == ZERO_INDEX; }
  }

  /** What adjusting the extents gives: whole clusters, exactly those wholly in the balloon. */
  lemma AdjustedBalloon(img: Img, s: seq<Span>, a: seq<Span>, c: nat)
    requires img.hdr.blocksize > 0 && c > 0 && |a| == |s| && OnDevice(s, c)
    requires forall k :: 0 <= k < |s| ==> a[k] == Adjusted(s[k], c)
    ensures OnDevice(a, c) && forall k :: 0 <= k < |a| ==> WholeClusters(a[k], c)
    ensures forall u: nat :: u in ClustersOf(a, c) <==> InBalloon(s, c, u)
    ensures TooLarge(img, a, c) ==> exists u: nat :: InBalloon(s, c, u) && PastIndex(img, u)
  {
    forall k | 0 <= k < |a| ensures WholeClusters(a[k], c) && Fits32(a[k], c) {
      AdjustExact(s[k], c, 0);
      AdjustedFits(s[k], c);
    }
    forall u: nat ensures u in ClustersOf(a, c) <==> InBalloon(s, c, u) { AdjustedClusters(s, a, c, u); }
    if TooLarge(img, a, c) {
      var k, u :| 0 <= k < |a| && u in SpanClusters(a[k], c) && PastIndex(img, u);
      SpanIn(a, c, k, u);
    }
  }

  /** What holds of the clusters of all adjusted extents holds of those wholly in the balloon. */
  lemma BalloonInside(img: Img, s: seq<Span>, a: seq<Span>, c: nat, limit: nat)
    requires img.hdr.blocksize > 0 && c > 0 && forall u: nat :: u in ClustersOf(a, c) <==> InBalloon(s, c, u)
    ensures (exists k :: 0 <= k < |a| && SpanBeyond(img, a[k], c, limit)) ==>
      exists u: nat :: InBalloon(s, c, u) && BeyondAt(img, u, limit)
    ensures (forall k :: 0 <= k < |a| ==> SpanInside(img, a[k], c, limit)) ==>
      forall u: nat :: InBalloon(s, c, u) ==> !PastIndex(img, u) && !BeyondAt(img, u, limit)
  {
    forall k, u: nat | 0 <= k < |a| && u in SpanClusters(a[k], c) ensures InBalloon(s, c, u) { SpanIn(a, c, k, u); }
    if forall k :: 0 <= k < |a| ==> SpanInside(img, a[k], c, limit) {
      forall u: nat | InBalloon(s, c, u) ensures !PastIndex(img, u) && !BeyondAt(img, u, limit) {
        var k := SomeSpan(a, c, u);
        assert SpanInside(img, a[k], c, limit);
      }
    }
  }

  lemma AdjustedFits(s: Span, c: nat)
    requires c > 0
    ensures (Adjusted(s, c).pos + Adjusted(s, c).len) / c <= (s.pos + s.len) / c
  {
    var pos := RoundDown(s.pos + c - 1, c);
    if pos < s.pos + s.len { DivMono(pos + RoundDown(s.len - (pos - s.pos), c), s.pos + s.len, c); }
    DivAtLeast(0, c, 0);
    DivUnique(0, c, 0, 0);
  }

  lemma FreedExactly(img: Img, s: seq<Span>, c: nat, done: set<nat>, m: seq<U32>, freemap: seq<Extent>)
    requires img.hdr.blocksize > 0 && c > 0 && RmapOn(img, done, m) && Exact(m, 0, |m|, freemap)
    requires (forall u: nat :: u in done <==> InBalloon(s, c, u)) && img.hdr.L2() <= ZERO_INDEX
    ensures Freed(img, s, c, freemap)
  {
  }

  /** The extents are exactly the pairs of an allocated cluster lying wholly in the balloon and its block. */
  ghost predicate Freed(img: Img, s: seq<Span>, c: nat, freemap: seq<Extent>)
    requires img.hdr.blocksize > 0
  {
    forall b: nat, u: nat :: InExts(freemap, b, u) <==>
      (InBalloon(s, c, u) && u < img.hdr.L2() && Slot(img, u) != 0 && Target(img, u) == b)
  }

  /** What the extents keep, and what follows from it at the end. */
  lemma Rows(img: Img, s: seq<Span>, a: seq<Span>, c: nat, len: nat) returns (rows: nat -> (nat, seq<U32>) -> bool)
    requires Valid(img) && img.hdr.L1() > 0 && c > 0 && forall u: nat :: u in ClustersOf(a, c) <==> InBalloon(s, c, u)
    requires img.hdr.L2() <= ZERO_INDEX
    ensures forall m :: |m| == len && (forall i :: 0 <= i < |m| ==> m[i] == ZERO_INDEX) ==>
      rows(0)(StartCluster(a, 0, c), m)
    ensures forall k: nat, u: nat, m: seq<U32> {:trigger EntrySurvives(rows(k), img, u, m)} ::
      u < ZERO_INDEX && |m| == len && rows(k)(u, m) && !PastIndex(img, u) ==> EntrySurvives(rows(k), img, u, m)
    ensures forall k: nat, m: seq<U32> :: k < |a| && rows(k)(EndCluster(a[k], c), m) ==>
      rows(k + 1)(StartCluster(a, k + 1, c), m)
    ensures forall m: seq<U32> :: rows(|a|)(0, m) ==>
      !Loses(m, 0, |m|) && forall fm :: Exact(m, 0, |m|, fm) ==> Freed(img, s, c, fm)
  {
    rows := (k: nat) => (u: nat, m: seq<U32>) => Kept(img, a, c, k, u, m);
    forall m: seq<U32> | forall i :: 0 <= i < |m| ==> m[i] == ZERO_INDEX ensures rows(0)(StartCluster(a, 0, c), m) {
      NothingKept(img, a, c, m);
    }
    forall k: nat, u: nat, m: seq<U32> | u < ZERO_INDEX && rows(k)(u, m) && !PastIndex(img, u)
      ensures EntrySurvives(rows(k), img, u, m)
    {
      KeptSurvives(img, a, c, k, u, m, rows(k));
    }
    forall k: nat, m: seq<U32> | k < |a| && rows(k)(EndCluster(a[k], c), m)
      ensures rows(k + 1)(StartCluster(a, k + 1, c), m)
    {
      KeptNext(img, a, c, k, m);
    }
    forall m: seq<U32> | rows(|a|)(0, m) ensures !Loses(m, 0, |m|) && forall fm :: Exact(m, 0, |m|, fm) ==>
      Freed(img, s, c, fm) {
      AllKept(img, s, a, c, m);
    }
  }

  lemma NothingKept(img: Img, a: seq<Span>, c: nat, m: seq<U32>)
    requires img.hdr.blocksize > 0 && c > 0 && forall i :: 0 <= i < |m| ==> m[i] == ZERO_INDEX
    ensures Kept(img, a, c, 0, StartCluster(a, 0, c), m)
  {
    assert a[..0] == [];
  }

  lemma AllKept(img: Img, s: seq<Span>, a: seq<Span>, c: nat, m: seq<U32>)
    requires Valid(img) && img.hdr.L1() > 0 && c > 0 && (forall u: nat :: u in ClustersOf(a, c) <==> InBalloon(s, c, u))
    requires img.hdr.L2() <= ZERO_INDEX
    requires Kept(img, a, c, |a|, 0, m)
    ensures !Loses(m, 0, |m|) && forall fm :: Exact(m, 0, |m|, fm) ==> Freed(img, s, c, fm)
  {
    assert a[..|a|] == a && ClustersOf(a, c) + Interval(0, 0) == ClustersOf(a, c);
    NoStray(img, ClustersOf(a, c), m, |m|);
    forall fm | Exact(m, 0, |m|, fm) ensures Freed(img, s, c, fm) { FreedExactly(img, s, c, ClustersOf(a, c), m, fm); }
  }

  /** From the balloon file's extents to the extents of freed clusters: exactly the pairs of an allocated
      cluster lying wholly in the balloon and its block, as sorted, disjoint and maximal extents. */
  method BalloonFreemap(extents: array<Span>, rmap: array<U32>, d: Delta) returns (r: Outcome, freemap: seq<Extent>)
    requires d.Synced() && Valid(d.file.cur) && d.blocksize < U32_LIMIT
    requires OnDevice(extents[..], d.blocksize * SECTOR_SIZE)
    requires d.l2Size <= ZERO_INDEX
    modifies extents, d`l2, d`l2Cache, rmap
    ensures r != Done ==> freemap == []
    ensures r == BadFormat ==>
      exists u: nat :: InBalloon(old(extents[..]), d.blocksize * SECTOR_SIZE, u) && BeyondAt(d.file.cur, u, rmap.Length)
    ensures r == Done ==> forall u: nat :: InBalloon(old(extents[..]), d.blocksize * SECTOR_SIZE, u) ==>
      !PastIndex(d.file.cur, u) && !BeyondAt(d.file.cur, u, rmap.Length)
    ensures r == Abort ==>
      exists u: nat :: InBalloon(old(extents[..]), d.blocksize * SECTOR_SIZE, u) && PastIndex(d.file.cur, u)
    ensures r == Done ==>
      Sorted(freemap) && Maximal(freemap) && Freed(d.file.cur, old(extents[..]), d.blocksize * SECTOR_SIZE, freemap)
  {
    freemap := [];
    ghost var s, c := extents[..], d.blocksize * SECTOR_SIZE;
    FiemapAdjust(extents, d.blocksize);
    AdjustedBalloon(d.file.cur, s, extents[..], c);
    ghost var rows := Rows(d.file.cur, s, extents[..], c, rmap.Length);
    r := FiemapBuildRmap(extents, rmap, d, rows);
    BalloonInside(d.file.cur, s, extents[..], c, rmap.Length);
    if r == BadFormat {
      assert exists k :: 0 <= k < |extents[..]| && SpanBeyond(d.file.cur, extents[..][k], c, rmap.Length);
    }
    if r != Done { return; }
    freemap := Rmap2Freemap(rmap, 0, rmap.Length, []);
    assert freemap[0..] == freemap;
  }
}
