/** Dirty bitmaps as extents: a bitmap is handed to the kernel as the runs of its set bits, in batches, and read
    back from the extents the kernel has. */
module Cbt {
  import opened Bitmap
  import opened Wrappers
  import Image

  const MAX_EXTENTS: nat := 512
  const U64: nat := 0x1_0000_0000_0000_0000

  /** Bytes `physical ..` of the device, `length` of them. */
  datatype Ext = Ext(physical: nat, length: nat) {
    function End(): nat { physical + length }
  }

  /** Set bits `start .. end`. */
  datatype Run = Run(start: nat, end: nat)

  /** A maximal run of set bits. */
  ghost predicate GoodRun(b: seq<bool>, size: nat, r: Run)
    requires size <= |b|
  {
    && r.start < r.end <= size && (forall i :: r.start <= i < r.end ==> b[i])
    && (r.start == 0 || !b[r.start - 1]) && (r.end == size || !b[r.end])
  }

  /** The runs are maximal, in order, and all set bits below `upto` lie in them. */
  ghost predicate RunsOf(b: seq<bool>, size: nat, upto: nat, runs: seq<Run>)
    requires size <= |b|
  {
    && (forall j :: 0 <= j < |runs| ==> GoodRun(b, size, runs[j]))
    && (forall j, k :: 0 <= j < k < |runs| ==> runs[j].end < runs[k].start)
    && (forall i :: 0 <= i < upto && i < size && b[i] ==> InRuns(runs, i))
  }

  ghost predicate InRuns(runs: seq<Run>, i: nat) { exists j :: 0 <= j < |runs| && runs[j].start <= i < runs[j].end }

  /** A run as bytes of the device. */
  function Scale(r: Run, offset: nat, granularity: nat): Ext
    requires r.start <= r.end
  {
    Ext((r.start + offset) * granularity, (r.end - r.start) * granularity)
  }

  /** The length as the loop computes it: the end in bytes less the start in bytes. */
  lemma ScaledEnd(r: Run, offset: nat, granularity: nat)
    requires r.start <= r.end
    ensures (r.end + offset) * granularity == Scale(r, offset, granularity).End()
  {
    assert (r.end + offset) * granularity == (r.start + offset) * granularity + (r.end - r.start) * granularity;
  }

  ghost predicate Scaled(exts: seq<Ext>, runs: seq<Run>, offset: nat, granularity: nat) {
    |exts| == |runs| && forall j :: 0 <= j < |runs| ==>
      runs[j].start <= runs[j].end && exts[j] == Scale(runs[j], offset, granularity)
  }

  function Flatten(batches: seq<seq<Ext>>): seq<Ext> {
    if batches == [] then [] else Flatten(batches[..|batches| - 1]) + batches[|batches| - 1]
  }

  lemma FlattenMore(batches: seq<seq<Ext>>, cur: seq<Ext>)
    ensures Flatten(batches + [cur]) == Flatten(batches) + cur
  {
    assert (batches + [cur])[..|batches|] == batches;
  }

  /** All runs below bit `from` are found, and `bit` is the next set bit. */
  ghost predicate Scan(b: seq<bool>, size: nat, from: nat, bit: int, runs: seq<Run>)
    requires size <= |b|
  {
    && RunsOf(b, size, from, runs) && IsNext(b, size, from, true, bit)
    && (forall j :: 0 <= j < |runs| ==> runs[j].end < from)
    && (0 < from <= size ==> !b[from - 1])
  }

  lemma InMore(runs: seq<Run>, r: Run, i: nat)
    ensures InRuns(runs + [r], i) <==> InRuns(runs, i) || r.start <= i < r.end
  {
    var runs' := runs + [r];
    if InRuns(runs, i) {
      var j :| 0 <= j < |runs| && runs[j].start <= i < runs[j].end;
      assert runs'[j] == runs[j];
    }
    if r.start <= i < r.end { assert runs'[|runs|] == r; }
  }

  /** One more run. */
  lemma RunStep(b: seq<bool>, size: nat, runs: seq<Run>, from: nat, start: nat, end: nat)
    requires size <= |b| && Scan(b, size, from, start, runs)
    requires start < end <= size && IsNext(b, size, start + 1, false, if end == size then -1 else end)
    ensures RunsOf(b, size, end + 1, runs + [Run(start, end)])
  {
    var r := Run(start, end);
    assert GoodRun(b, size, r);
    forall i | 0 <= i < end + 1 && i < size && b[i] ensures InRuns(runs + [r], i) { InMore(runs, r, i); }
  }

  lemma ScanEnds(b: seq<bool>, size: nat, from: nat, runs: seq<Run>)
    requires size <= |b| && Scan(b, size, from, -1, runs)
    ensures RunsOf(b, size, size, runs)
  {
  }

  /** The run that starts at `bit`, and the next set bit after it. */
  method NextRun(bmap: array<Word>, size: nat, bit: nat, ghost from: nat, ghost runs: seq<Run>)
    returns (end: nat, next: int)
    requires size <= 64 * bmap.Length && Scan(Bits(bmap[..]), size, from, bit, runs)
    ensures bit < end <= size && (next == -1 || end < next < size)
    ensures Scan(Bits(bmap[..]), size, end + 1, next, runs + [Run(bit, end)])
  {
    var e := BitFindNextClear64(bmap, size, bit + 1);
    end := if e == -1 then size else e;
    RunStep(Bits(bmap[..]), size, runs, from, bit, end);
    next := BitFindNextSet64(bmap, size, end + 1);
  }

  lemma ScaledMore(exts: seq<Ext>, runs: seq<Run>, offset: nat, granularity: nat, r: Run)
    requires Scaled(exts, runs, offset, granularity) && r.start <= r.end
    ensures Scaled(exts + [Scale(r, offset, granularity)], runs + [r], offset, granularity)
  {
  }

  predicate FullBatches(batches: seq<seq<Ext>>) { forall k :: 0 <= k < |batches| ==> |batches[k]| == MAX_EXTENTS }

  /** Adds an extent to the current batch, and hands the batch over when it is full. */
  method Emit(batches: seq<seq<Ext>>, cur: seq<Ext>, e: Ext) returns (batches': seq<seq<Ext>>, cur': seq<Ext>)
    requires FullBatches(batches) && |cur| < MAX_EXTENTS
    ensures FullBatches(batches') && |cur'| < MAX_EXTENTS && Flatten(batches') + cur' == Flatten(batches) + cur + [e]
  {
    batches', cur' := batches, cur + [e];
    if |cur'| == MAX_EXTENTS {
      FlattenMore(batches, cur');
      batches', cur' := batches + [cur'], [];
    }
  }

  /** Adds the extent of one run. */
  method EmitRun(r: Run, offset: nat, granularity: nat, batches: seq<seq<Ext>>, cur: seq<Ext>, ghost runs: seq<Run>)
    returns (batches': seq<seq<Ext>>, cur': seq<Ext>)
    requires Scaled(Flatten(batches) + cur, runs, offset, granularity) && |cur| < MAX_EXTENTS && FullBatches(batches)
    requires r.start <= r.end
    ensures Scaled(Flatten(batches') + cur', runs + [r], offset, granularity) && |cur'| < MAX_EXTENTS
    ensures FullBatches(batches')
  {
    ScaledMore(Flatten(batches) + cur, runs, offset, granularity, r);
    ScaledEnd(r, offset, granularity);
    var physical := (r.start + offset) * granularity;
    batches', cur' := Emit(batches, cur, Ext(physical, (r.end + offset) * granularity - physical));
  }

  /** `cbt_set_dirty_bitmap_part`: the extents handed over in each call. They are the maximal runs of set bits,
      scaled; every call but the last has the full number. */
  method SetDirtyBitmapPart(bmap: array<Word>, size: nat, offset: nat, granularity: nat)
    returns (batches: seq<seq<Ext>>, ghost runs: seq<Run>)
    requires size <= 64 * bmap.Length
    ensures RunsOf(Bits(bmap[..]), size, size, runs) && Scaled(Flatten(batches), runs, offset, granularity)
    ensures forall k :: 0 <= k < |batches| ==>
      0 < |batches[k]| <= MAX_EXTENTS && (k < |batches| - 1 ==> |batches[k]| == MAX_EXTENTS)
  {
    ghost var b, from: nat := Bits(bmap[..]), 0;
    batches, runs := [], [];
    var cur: seq<Ext> := [];
    var bit: int := BitFindNextSet64(bmap, size, 0);
    while bit != -1
      invariant Scan(b, size, from, bit, runs) && -1 <= bit < size
      invariant Scaled(Flatten(batches) + cur, runs, offset, granularity) && |cur| < MAX_EXTENTS && FullBatches(batches)
      decreases if bit == -1 then 0 else size + 1 - bit
    {
      var end, next := NextRun(bmap, size, bit, from, runs);
      batches, cur := EmitRun(Run(bit, end), offset, granularity, batches, cur, runs);
      runs := runs + [Run(bit, end)];
      from := end + 1;
      bit := next;
    }
    ScanEnds(b, size, from, runs);
    if |cur| > 0 {
      FlattenMore(batches, cur);
      batches := batches + [cur];
    } else {
      assert Flatten(batches) + cur == Flatten(batches);
    }
  }

  // ---------- reading the bitmap back ----------

  ghost predicate SortedExts(e: seq<Ext>) {
    (forall j :: 0 <= j < |e| ==> e[j].length > 0) && forall j, k :: 0 <= j < k < |e| ==> e[j].End() <= e[k].physical
  }

  /** Some byte of the extent lies in granule `u`. */
  predicate Touches(e: Ext, granularity: nat, u: nat)
    requires granularity > 0
  {
    e.length > 0 && e.physical / granularity <= u <= (e.End() - 1) / granularity
  }

  ghost predicate Covered(exts: seq<Ext>, granularity: nat, u: nat)
    requires granularity > 0
  {
    exists j :: 0 <= j < |exts| && Touches(exts[j], granularity, u)
  }

  /** The first extent, from `j` on, that ends after `start`. */
  function FirstAfter(exts: seq<Ext>, j: nat, start: nat): (r: nat)
    requires j <= |exts|
    ensures j <= r <= |exts| && (forall k :: j <= k < r ==> exts[k].End() <= start)
    ensures (r < |exts| ==> exts[r].End() > start)
    decreases |exts| - j
  {
    if j < |exts| && exts[j].End() <= start then FirstAfter(exts, j + 1, start) else j
  }

  /** The end of the extents, from `j` on, that start before `limit`; at most `n` of them. */
  function Upto(exts: seq<Ext>, j: nat, limit: nat, n: nat): (r: nat)
    requires j <= |exts|
    ensures j <= r <= |exts| && r - j <= n && (r - j < n && r < |exts| ==> exts[r].physical >= limit)
    decreases |exts| - j
  {
    if j < |exts| && n > 0 && exts[j].physical < limit then Upto(exts, j + 1, limit, n - 1) else j
  }

  /** The kernel's answer: the extents it has between `start` and `start + length`, no more than asked for. */
  function BlkCbtGet(store: seq<Ext>, start: nat, length: nat): seq<Ext> {
    var lo := FirstAfter(store, 0, start);
    store[lo..Upto(store, lo, start + length, MAX_EXTENTS)]
  }

  /** The window is smaller than 2^31 bits, no extent starts more than 2^31 granules behind it, and byte positions fit
      64 bits. */
  ghost predicate InRange(exts: seq<Ext>, size: nat, offset: nat, granularity: nat)
    requires granularity > 0
  {
    && 0 < size < I32 && (offset + size) * granularity < U64
    && forall j :: 0 <= j < |exts| ==> exts[j].physical / granularity <= offset + size + I32 && exts[j].End() < U64
  }

  lemma LastGranule(e: Ext, granularity: nat, offset: nat)
    requires granularity > 0 && e.length > 0 && e.End() > offset * granularity
    ensures (e.End() - 1) / granularity >= offset
  {
    var q := (e.End() - 1) / granularity;
    Image.MulMono(q + 1, offset, granularity);
    assert (q + 1) * granularity > e.End() - 1;
  }

  /** Marks the granules of one extent that ends in or after the window. Extents behind the window mark nothing. */
  method MarkExtent(buf: array<bool>, e: Ext, size: nat, offset: nat, granularity: nat)
    requires granularity > 0 && buf.Length == size && InRange([e], size, offset, granularity) && e.length > 0
    requires e.End() > offset * granularity
    modifies buf
    ensures forall i :: 0 <= i < size ==> buf[i] == (old(buf[i]) || Touches(e, granularity, offset + i))
  {
    assert [e][0] == e;
    LastGranule(e, granularity, offset);
    var first, last := Max(offset, e.physical / granularity), Min(offset + size - 1, (e.End() - 1) / granularity);
    FirstBeforeLast(e, granularity);
    var n := (last - first + 1) % U32;
    Wraps(first - offset, last - first + 1, last + 1 - offset);
    SetBlock(buf, first - offset, n);
  }

  lemma FirstBeforeLast(e: Ext, granularity: nat)
    requires granularity > 0 && e.length > 0
    ensures e.physical / granularity <= (e.End() - 1) / granularity
  {
    var a, b := e.physical / granularity, (e.End() - 1) / granularity;
    Image.MulMono(b + 1, a, granularity);
    assert a * granularity <= e.physical && e.End() - 1 < (b + 1) * granularity;
  }

  lemma Wraps(start: nat, n: int, end: nat)
    requires start + n == end && start < U32 && end < U32 && n + U32 > 0
    ensures (start + n % U32) % U32 == end
  {
    assert n % U32 == n || n % U32 == n + U32;
  }

  lemma CoveredMore(exts: seq<Ext>, e: Ext, granularity: nat, u: nat)
    requires granularity > 0
    ensures Covered(exts + [e], granularity, u) <==> Covered(exts, granularity, u) || Touches(e, granularity, u)
  {
    if Covered(exts, granularity, u) {
      var j :| 0 <= j < |exts| && Touches(exts[j], granularity, u);
      assert (exts + [e])[j] == exts[j];
    }
    if Touches(e, granularity, u) { assert (exts + [e])[|exts|] == e; }
  }

  /** Marks extents `lo .. hi`, all of which end in or after the window. */
  method MarkAll(buf: array<bool>, exts: seq<Ext>, size: nat, offset: nat, granularity: nat)
    requires granularity > 0 && buf.Length == size && InRange(exts, size, offset, granularity)
    requires forall j :: 0 <= j < |exts| ==> exts[j].length > 0 && exts[j].End() > offset * granularity
    modifies buf
    ensures OrMarked(buf[..], old(buf[..]), exts, granularity, offset)
  {
    var j := 0;
    while j < |exts|
      invariant 0 <= j <= |exts| && OrMarked(buf[..], old(buf[..]), exts[..j], granularity, offset)
    {
      ghost var m := buf[..];
      MarkExtent(buf, exts[j], size, offset, granularity);
      OrMarkedMore(buf[..], m, old(buf[..]), exts[..j], exts[j], granularity, offset);
      assert exts[..j + 1] == exts[..j] + [exts[j]];
      j := j + 1;
    }
    assert exts[..j] == exts;
  }

  /** An extent that ends before the window touches none of its granules. */
  lemma Before(e: Ext, granularity: nat, offset: nat, u: nat)
    requires granularity > 0 && e.End() <= offset * granularity && u >= offset
    ensures !Touches(e, granularity, u)
  {
    if e.length > 0 {
      var q := (e.End() - 1) / granularity;
      Image.MulMono(offset, q, granularity);
      assert q * granularity <= e.End() - 1;
    }
  }

  /** Nor does one that starts after it. */
  lemma After(e: Ext, granularity: nat, end: nat, u: nat)
    requires granularity > 0 && e.physical >= end * granularity && u < end
    ensures !Touches(e, granularity, u)
  {
    var q := e.physical / granularity;
    Image.MulMono(q + 1, end, granularity);
    assert (q + 1) * granularity > e.physical;
  }

  /** Extents `lo .. hi` of a sorted list are all that touch the window if those before end before it and those
      after start after it. */
  lemma OnlyMiddle(exts: seq<Ext>, lo: nat, hi: nat, granularity: nat, offset: nat, size: nat, u: nat)
    requires granularity > 0 && lo <= hi <= |exts| && offset <= u < offset + size
    requires forall j :: 0 <= j < lo ==> exts[j].End() <= offset * granularity
    requires forall j :: hi <= j < |exts| ==> exts[j].physical >= (offset + size) * granularity
    ensures Covered(exts, granularity, u) <==> Covered(exts[lo..hi], granularity, u)
  {
    if Covered(exts, granularity, u) {
      var j :| 0 <= j < |exts| && Touches(exts[j], granularity, u);
      if j < lo { Before(exts[j], granularity, offset, u); }
      else if j >= hi { After(exts[j], granularity, offset + size, u); }
      else { assert exts[lo..hi][j - lo] == exts[j]; }
    }
    if Covered(exts[lo..hi], granularity, u) {
      var j :| 0 <= j < hi - lo && Touches(exts[lo..hi][j], granularity, u);
      assert exts[lo + j] == exts[lo..hi][j];
    }
  }

  lemma CoveredConcat(a: seq<Ext>, b: seq<Ext>, granularity: nat, u: nat)
    requires granularity > 0
    ensures Covered(a + b, granularity, u) <==> Covered(a, granularity, u) || Covered(b, granularity, u)
  {
    if Covered(a, granularity, u) {
      var j :| 0 <= j < |a| && Touches(a[j], granularity, u);
      assert (a + b)[j] == a[j];
    }
    if Covered(b, granularity, u) {
      var j :| 0 <= j < |b| && Touches(b[j], granularity, u);
      assert (a + b)[|a| + j] == b[j];
    }
  }

  lemma EndsAfter(exts: seq<Ext>, start: nat, j: nat)
    requires SortedExts(exts) && FirstAfter(exts, 0, start) <= j < |exts|
    ensures exts[j].End() > start
  {
    var r := FirstAfter(exts, 0, start);
    if r < j { assert exts[r].End() <= exts[j].physical; }
  }

  /** After extents `.. k` were answered, the next question starts where the last of them ends. */
  lemma NextStart(exts: seq<Ext>, k: nat)
    requires SortedExts(exts) && 0 < k <= |exts|
    ensures FirstAfter(exts, 0, exts[k - 1].End()) == k
  {
    assert forall j :: 0 <= j < k - 1 ==> exts[j].End() <= exts[k - 1].physical;
    if k < |exts| { assert exts[k - 1].End() <= exts[k].physical; }
  }

  /** The length of the next question, which wraps in 64 bits, still reaches the end of the window. */
  lemma Reaches(ciStart: nat, ciEnd: nat)
    requires ciEnd < U64
    ensures ciStart + (ciEnd - ciStart) % U64 >= ciEnd
  {
    if ciStart <= ciEnd {
      assert (ciEnd - ciStart) % U64 == ciEnd - ciStart;
    }
  }

  /** Extents `lo .. k` are marked in the window. */
  ghost predicate MarkedPart(buf: seq<bool>, store: seq<Ext>, granularity: nat, offset: nat, lo: nat, k: nat)
    requires granularity > 0 && lo <= k <= |store|
  {
    forall i :: 0 <= i < |buf| ==> buf[i] == Covered(store[lo..k], granularity, offset + i)
  }

  lemma BatchIs(store: seq<Ext>, start: nat, length: nat, k: nat)
    requires SortedExts(store) && k == FirstAfter(store, 0, start)
    ensures var batch := BlkCbtGet(store, start, length);
      && |batch| <= MAX_EXTENTS && k + |batch| <= |store| && batch == store[k..k + |batch|]
      && (|batch| < MAX_EXTENTS && k + |batch| < |store| ==> store[k + |batch|].physical >= start + length)
      && forall j :: 0 <= j < |batch| ==> batch[j].length > 0 && batch[j].End() > start
  {
    var batch := BlkCbtGet(store, start, length);
    forall j | 0 <= j < |batch| ensures batch[j].length > 0 && batch[j].End() > start {
      EndsAfter(store, start, k + j);
    }
  }

  lemma PartMore(buf: seq<bool>, m: seq<bool>, store: seq<Ext>, granularity: nat, offset: nat, lo: nat, k: nat, n: nat)
    requires granularity > 0 && lo <= k <= n <= |store| && MarkedPart(m, store, granularity, offset, lo, k)
    requires OrMarked(buf, m, store[k..n], granularity, offset)
    ensures MarkedPart(buf, store, granularity, offset, lo, n)
  {
    assert store[lo..n] == store[lo..k] + store[k..n];
    forall i | 0 <= i < |buf| ensures buf[i] == Covered(store[lo..n], granularity, offset + i) {
      CoveredConcat(store[lo..k], store[k..n], granularity, offset + i);
    }
  }

  /** `inv` holds after extents `k .. n` are marked as well. */
  ghost predicate PartStep(inv: (nat, seq<bool>) -> bool, store: seq<Ext>, granularity: nat, offset: nat, k: nat,
        n: nat, m: seq<bool>, buf: seq<bool>)
    requires granularity > 0 && k <= n <= |store|
  {
    inv(k, m) && OrMarked(buf, m, store[k..n], granularity, offset) ==> inv(n, buf)
  }

  /** One question to the kernel. */
  method FetchBatch(store: seq<Ext>, buf: array<bool>, size: nat, offset: nat, granularity: nat, start: nat,
        length: nat, ghost k: nat,
        ghost inv: (nat, seq<bool>) -> bool) returns (batch: seq<Ext>)
    requires granularity > 0 && SortedExts(store) && InRange(store, size, offset, granularity) && buf.Length == size
    requires k == FirstAfter(store, 0, start) && start >= offset * granularity && inv(k, buf[..])
    requires forall i: nat, n: nat, m, b {:trigger PartStep(inv, store, granularity, offset, i, n, m, b)} ::
      i <= n <= |store| ==> PartStep(inv, store, granularity, offset, i, n, m, b)
    modifies buf
    ensures k + |batch| <= |store| && batch == store[k..k + |batch|] && |batch| <= MAX_EXTENTS
    ensures |batch| < MAX_EXTENTS && k + |batch| < |store| ==> store[k + |batch|].physical >= start + length
    ensures inv(k + |batch|, buf[..])
  {
    ghost var m := buf[..];
    batch := BlkCbtGet(store, start, length);
    BatchIs(store, start, length, k);
    MarkAll(buf, batch, size, offset, granularity);
    assert PartStep(inv, store, granularity, offset, k, k + |batch|, m, buf[..]);
  }

  /** Where the next question starts after extents `.. k`, and how long it is. */
  method NextQuestion(store: seq<Ext>, ghost k: nat, last: Ext, ciEnd: nat) returns (ciStart: nat, ciLength: nat)
    requires SortedExts(store) && 0 < k <= |store| && last == store[k - 1] && ciEnd < U64
    ensures k == FirstAfter(store, 0, ciStart) && ciStart == last.End() && ciStart + ciLength >= ciEnd
  {
    NextStart(store, k);
    ciStart := last.End();
    ciLength := (ciEnd - ciStart) % U64;
    Reaches(ciStart, ciEnd);
  }

  lemma StartLater(store: seq<Ext>, k: nat, end: nat)
    requires SortedExts(store) && (k < |store| ==> store[k].physical >= end)
    ensures forall j :: k <= j < |store| ==> store[j].physical >= end
  {
    assert forall j :: k < j < |store| ==> store[j].physical >= store[k].End();
  }

  lemma MarkedIsCovered(buf: seq<bool>, store: seq<Ext>, size: nat, offset: nat, granularity: nat, k: nat)
    requires granularity > 0 && SortedExts(store) && |buf| == size && k <= |store|
    requires FirstAfter(store, 0, offset * granularity) <= k
    requires MarkedPart(buf, store, granularity, offset, FirstAfter(store, 0, offset * granularity), k)
    requires k < |store| ==> store[k].physical >= (offset + size) * granularity
    ensures forall i :: 0 <= i < size ==> buf[i] == Covered(store, granularity, offset + i)
  {
    var lo := FirstAfter(store, 0, offset * granularity);
    StartLater(store, k, (offset + size) * granularity);
    forall i | 0 <= i < size ensures buf[i] == Covered(store, granularity, offset + i) {
      OnlyMiddle(store, lo, k, granularity, offset, size, offset + i);
    }
  }

  /** The loop over the kernel's answers: the bitmap of the granules its extents touch in the window. */
  method GetFromKernel(store: seq<Ext>, buf: array<bool>, size: nat, offset: nat, granularity: nat)
    requires 0 < granularity < U32 && SortedExts(store) && InRange(store, size, offset, granularity)
    requires buf.Length == size
    requires forall i :: 0 <= i < size ==> !buf[i]
    modifies buf
    ensures forall i :: 0 <= i < size ==> buf[i] == Covered(store, granularity, offset + i)
  {
    var ciStart: nat, ciLength: nat := offset * granularity, size * granularity;
    EndFits(size, offset, granularity);
    ghost var inv := PartInvariant(store, buf[..], size, offset, granularity);
    ghost var k := GetLoop(store, buf, size, offset, granularity, ciStart, ciLength, inv);
  }

  /** What the loop keeps, and what it gives at the end. */
  lemma PartInvariant(store: seq<Ext>, buf0: seq<bool>, size: nat, offset: nat, granularity: nat)
    returns (inv: (nat, seq<bool>) -> bool)
    requires granularity > 0 && SortedExts(store) && |buf0| == size && forall i :: 0 <= i < size ==> !buf0[i]
    ensures inv(FirstAfter(store, 0, offset * granularity), buf0)
    ensures forall i: nat, n: nat, m, b {:trigger PartStep(inv, store, granularity, offset, i, n, m, b)} ::
      i <= n <= |store| ==> PartStep(inv, store, granularity, offset, i, n, m, b)
    ensures forall k: nat, b :: k <= |store| && inv(k, b) && (k < |store| ==>
        store[k].physical >= (offset + size) * granularity) ==>
      |b| == size && forall i :: 0 <= i < size ==> b[i] == Covered(store, granularity, offset + i)
  {
    var lo := FirstAfter(store, 0, offset * granularity);
    assert store[lo..lo] == [];
    inv := (k: nat, b: seq<bool>) => lo <= k <= |store| && |b| == size &&
    MarkedPart(b, store, granularity, offset, lo, k);
    forall i: nat, n: nat, m, b | i <= n <= |store| ensures PartStep(inv, store, granularity, offset, i, n, m, b) {
      if inv(i, m) && OrMarked(b, m, store[i..n], granularity, offset) {
        PartMore(b, m, store, granularity, offset, lo, i, n);
      }
    }
    forall k: nat, b | k <= |store| && inv(k, b) && (k < |store| ==> store[k].physical >= (offset + size) * granularity)
      ensures forall i :: 0 <= i < size ==> b[i] == Covered(store, granularity, offset + i)
    {
      MarkedIsCovered(b, store, size, offset, granularity, k);
    }
  }

  method GetLoop(store: seq<Ext>, buf: array<bool>, size: nat, offset: nat, granularity: nat, start: nat, length: nat,
        ghost inv: (nat, seq<bool>) -> bool) returns (ghost k: nat)
    requires granularity > 0 && SortedExts(store) && InRange(store, size, offset, granularity) && buf.Length == size
    requires start >= offset * granularity && start + length < U64 && inv(FirstAfter(store, 0, start), buf[..])
    requires forall i: nat, n: nat, m, b {:trigger PartStep(inv, store, granularity, offset, i, n, m, b)} ::
      i <= n <= |store| ==> PartStep(inv, store, granularity, offset, i, n, m, b)
    modifies buf
    ensures k <= |store| && inv(k, buf[..]) && (k < |store| ==> store[k].physical >= start + length)
  {
    var ciStart: nat, ciLength: nat, ciEnd := start, length, start + length;
    k := FirstAfter(store, 0, start);
    while true
      invariant k <= |store| && ciStart >= start && ciStart + ciLength >= ciEnd && k == FirstAfter(store, 0, ciStart)
      invariant inv(k, buf[..])
      decreases |store| - k
    {
      var batch := FetchBatch(store, buf, size, offset, granularity, ciStart, ciLength, k, inv);
      k := k + |batch|;
      if |batch| < MAX_EXTENTS { break; }
      EndsAfter(store, ciStart, k - 1);
      ciStart, ciLength := NextQuestion(store, k, batch[|batch| - 1], ciEnd);
    }
  }

  lemma EndFits(size: nat, offset: nat, granularity: nat)
    ensures offset * granularity + size * granularity == (offset + size) * granularity
  {
  }

  // ---------- extents saved earlier, with the remembered cursor ----------

  /** `struct cbt_data`: extents fetched and cleared earlier, and where the last window stopped. */
  class CbtData {
    const extents: seq<Ext>
    var lastUsed: nat

    constructor (e: seq<Ext>)
      ensures extents == e && lastUsed == 0
    {
      extents, lastUsed := e, 0;
    }

    /** Adds the granules the extents touch in the window. Wherever the cursor stands, none is missed. */
    method OrInto(buf: array<bool>, size: nat, offset: nat, granularity: nat)
      requires granularity > 0 && SortedExts(extents) && InRange(extents, size, offset, granularity)
      requires buf.Length == size
      requires lastUsed <= |extents|
      modifies this, buf
      ensures lastUsed <= |extents|
      ensures forall i :: 0 <= i < size ==> buf[i] == (old(buf[i]) || Covered(extents, granularity, offset + i))
    {
      ghost var was := buf[..];
      var cur := FirstInWindow(offset * granularity);
      ghost var lo := cur;
      assert extents[lo..lo] == [];
      while cur != |extents| && extents[cur].physical < (offset + size) * granularity
        invariant lo <= cur <= |extents| && forall j :: lo <= j < |extents| ==> extents[j].End() > offset * granularity
        invariant OrMarked(buf[..], was, extents[lo..cur], granularity, offset)
      {
        ghost var m := buf[..];
        MarkExtent(buf, extents[cur], size, offset, granularity);
        OrMarkedMore(buf[..], m, was, extents[lo..cur], extents[cur], granularity, offset);
        assert extents[lo..cur + 1] == extents[lo..cur] + [extents[cur]];
        cur := cur + 1;
      }
      OrIsCovered(buf[..], was, size, offset, granularity, lo, cur);
      lastUsed := cur;
    }

    /** The first extent that ends after `start`: from the cursor if the extent before it does not, else from the
        beginning. */
    method FirstInWindow(start: nat) returns (cur: nat)
      requires SortedExts(extents) && lastUsed <= |extents|
      ensures cur <= |extents| && (forall j :: 0 <= j < cur ==> extents[j].End() <= start)
      ensures forall j :: cur <= j < |extents| ==> extents[j].End() > start
    {
      cur := 0;
      if lastUsed > 0 && extents[lastUsed - 1].End() <= start {
        cur := lastUsed;
        assert forall j :: 0 <= j < lastUsed - 1 ==> extents[j].End() <= extents[lastUsed - 1].physical;
      }
      while cur != |extents| && extents[cur].End() <= start
        invariant 0 <= cur <= |extents| && forall j :: 0 <= j < cur ==> extents[j].End() <= start
      {
        cur := cur + 1;
      }
      assert forall j :: cur < j < |extents| ==> extents[cur].End() <= extents[j].physical;
    }

    lemma OrIsCovered(buf: seq<bool>, was: seq<bool>, size: nat, offset: nat, granularity: nat, lo: nat, hi: nat)
      requires granularity > 0 && SortedExts(extents) && |buf| == size && lo <= hi <= |extents|
      requires OrMarked(buf, was, extents[lo..hi], granularity, offset)
      requires forall j :: 0 <= j < lo ==> extents[j].End() <= offset * granularity
      requires hi < |extents| ==> extents[hi].physical >= (offset + size) * granularity
      ensures OrMarked(buf, was, extents, granularity, offset)
    {
      forall i | 0 <= i < size ensures buf[i] == (was[i] || Covered(extents, granularity, offset + i)) {
        assert forall j :: hi <= j < |extents| ==> extents[j].physical >= extents[hi].physical;
        OnlyMiddle(extents, lo, hi, granularity, offset, size, offset + i);
      }
    }
  }

  /** The granules of `exts` were added. */
  ghost predicate OrMarked(buf: seq<bool>, was: seq<bool>, exts: seq<Ext>, granularity: nat, offset: nat)
    requires granularity > 0
  {
    |buf| == |was| && forall i :: 0 <= i < |buf| ==> buf[i] == (was[i] || Covered(exts, granularity, offset + i))
  }

  lemma OrMarkedMore(buf: seq<bool>, m: seq<bool>, was: seq<bool>, exts: seq<Ext>, e: Ext, granularity: nat,
        offset: nat)
    requires granularity > 0 && OrMarked(m, was, exts, granularity, offset) && |buf| == |m|
    requires forall i :: 0 <= i < |buf| ==> buf[i] == (m[i] || Touches(e, granularity, offset + i))
    ensures OrMarked(buf, was, exts + [e], granularity, offset)
  {
    forall i | 0 <= i < |buf| ensures buf[i] == (was[i] || Covered(exts + [e], granularity, offset + i)) {
      CoveredMore(exts, e, granularity, offset + i);
    }
  }

  /** `cbt_get_dirty_bitmap_part`: the granules of the window touched by the kernel's extents or the saved ones. */
  method GetDirtyBitmapPart(store: seq<Ext>, size: nat, offset: nat, granularity: nat, data: CbtData?)
    returns (buf: array<bool>)
    requires 0 < granularity < U32 && SortedExts(store) && InRange(store, size, offset, granularity)
    requires data != null ==>
      SortedExts(data.extents) && InRange(data.extents, size, offset, granularity) && data.lastUsed <= |data.extents|
    modifies data
    ensures fresh(buf) && buf.Length == size && (data != null ==> data.lastUsed <= |data.extents|)
    ensures forall i :: 0 <= i < size ==>
      buf[i] == (Covered(store, granularity, offset + i) ||
        (data != null && Covered(data.extents, granularity, offset + i)))
  {
    buf := new bool[size](_ => false);
    GetFromKernel(store, buf, size, offset, granularity);
    if data != null { data.OrInto(buf, size, offset, granularity); }
  }

  // ---------- the round trip ----------

  lemma ScaledGranules(r: Run, offset: nat, granularity: nat, u: nat)
    requires granularity > 0 && r.start < r.end
    ensures Touches(Scale(r, offset, granularity), granularity, u) <==> r.start + offset <= u < r.end + offset
  {
    var e := Scale(r, offset, granularity);
    ScaledEnd(r, offset, granularity);
    Image.MulMono(1, r.end - r.start, granularity);
    Divides(r.start + offset, granularity, 0);
    assert e.End() - 1 == (r.end + offset - 1) * granularity + (granularity - 1);
    Divides(r.end + offset - 1, granularity, granularity - 1);
  }

  lemma Divides(q: nat, granularity: nat, rest: nat)
    requires rest < granularity
    ensures (q * granularity + rest) / granularity == q
  {
    var d := (q * granularity + rest) / granularity;
    assert d * granularity <= q * granularity + rest < (d + 1) * granularity;
    Image.MulMono(q + 1, d, granularity);
    Image.MulMono(d + 1, q, granularity);
  }

  lemma ScaledSorted(exts: seq<Ext>, runs: seq<Run>, offset: nat, granularity: nat)
    requires granularity > 0 && Scaled(exts, runs, offset, granularity)
    requires (forall j :: 0 <= j < |runs| ==> runs[j].start < runs[j].end)
    requires forall j, k :: 0 <= j < k < |runs| ==> runs[j].end < runs[k].start
    ensures SortedExts(exts)
  {
    forall j | 0 <= j < |exts| ensures exts[j].length > 0 {
      Image.MulMono(1, runs[j].end - runs[j].start, granularity);
    }
    forall j, k | 0 <= j < k < |exts| ensures exts[j].End() <= exts[k].physical {
      ScaledEnd(runs[j], offset, granularity);
      Image.MulMono(runs[j].end + offset, runs[k].start + offset, granularity);
    }
  }

  /** Granule `i` of the window is touched by the scaled runs exactly if bit `i` is set. */
  lemma ScaledCovers(b: seq<bool>, size: nat, exts: seq<Ext>, runs: seq<Run>, offset: nat, granularity: nat, i: nat)
    requires granularity > 0 && i < size <= |b| && RunsOf(b, size, size, runs)
    requires Scaled(exts, runs, offset, granularity)
    ensures Covered(exts, granularity, offset + i) <==> b[i]
  {
    if b[i] {
      assert InRuns(runs, i);
      var j :| 0 <= j < |runs| && runs[j].start <= i < runs[j].end;
      ScaledGranules(runs[j], offset, granularity, offset + i);
    }
    if Covered(exts, granularity, offset + i) {
      var j :| 0 <= j < |exts| && Touches(exts[j], granularity, offset + i);
      assert GoodRun(b, size, runs[j]);
      ScaledGranules(runs[j], offset, granularity, offset + i);
    }
  }

  lemma ScaledInRange(b: seq<bool>, size: nat, exts: seq<Ext>, runs: seq<Run>, offset: nat, granularity: nat)
    requires granularity > 0 && size <= |b| && RunsOf(b, size, size, runs) && Scaled(exts, runs, offset, granularity)
    requires 0 < size < I32 && (offset + size) * granularity < U64
    ensures InRange(exts, size, offset, granularity)
  {
    forall j | 0 <= j < |exts| ensures exts[j].physical / granularity <= offset + size + I32 && exts[j].End() < U64 {
      var r := runs[j];
      assert GoodRun(b, size, r);
      ScaledEnd(r, offset, granularity);
      Divides(r.start + offset, granularity, 0);
      Image.MulMono(r.end + offset, offset + size, granularity);
    }
  }

  /** Handing a bitmap to the kernel and reading it back gives the same bitmap. */
  method RoundTrip(bmap: array<Word>, size: nat, offset: nat, granularity: nat) returns (buf: array<bool>)
    requires 0 < granularity < U32 && 0 < size < I32 && size <= 64 * bmap.Length && (offset + size) * granularity < U64
    ensures fresh(buf) && buf[..] == Bits(bmap[..])[..size]
  {
    var batches;
    ghost var runs;
    batches, runs := SetDirtyBitmapPart(bmap, size, offset, granularity);
    var store := Flatten(batches);
    ghost var b := Bits(bmap[..]);
    forall j | 0 <= j < |runs| ensures runs[j].start < runs[j].end { assert GoodRun(b, size, runs[j]); }
    ScaledSorted(store, runs, offset, granularity);
    ScaledInRange(b, size, store, runs, offset, granularity);
    buf := GetDirtyBitmapPart(store, size, offset, granularity, null);
    forall i | 0 <= i < size ensures buf[i] == b[i] { ScaledCovers(b, size, store, runs, offset, granularity, i); }
  }
}
