/** Extents of mapped clusters: from a reverse map to maximal runs, and splitting runs at free blocks. */
module Extents {
  import opened Image
  import opened Wrappers

  const ZERO_INDEX: nat := 0xFFFF_FFFF

  /** Clusters `clu ..` lie in file blocks `iblk ..`, `len` of them. */
  datatype Extent = Extent(clu: nat, iblk: nat, len: nat) {
    predicate Has(block: nat, cluster: nat) { iblk <= block < iblk + len && cluster == clu + (block - iblk) }
    predicate Holds(block: nat) { iblk <= block < iblk + len }
  }

  /** An extent of a range, `free` if it is also free. */
  datatype Reloc = Reloc(ext: Extent, free: bool)

  ghost predicate InExts(exts: seq<Extent>, block: nat, cluster: nat) {
    exists k :: 0 <= k < |exts| && exts[k].Has(block, cluster)
  }

  ghost predicate BlockIn(exts: seq<Extent>, block: nat) {
    exists k :: 0 <= k < |exts| && exts[k].Holds(block)
  }

  /** Non-empty, disjoint and in order. */
  ghost predicate Sorted(exts: seq<Extent>) {
    && (forall k :: 0 <= k < |exts| ==> exts[k].len > 0)
    && (forall j, k :: 0 <= j < k < |exts| ==> exts[j].iblk + exts[j].len <= exts[k].iblk)
  }

  /** `f` continues `e`. */
  predicate Joins(e: Extent, f: Extent) { f.iblk == e.iblk + e.len && f.clu == e.clu + e.len }

  ghost predicate Maximal(exts: seq<Extent>) {
    forall k :: 0 < k < |exts| ==> !Joins(exts[k - 1], exts[k])
  }

  // ---------- runs of the reverse map ----------

  /** Entries `0 .. at` are one run that does not start with cluster 0, and entry `at` maps block to itself:
      the run already written out leaves its length behind, so `at` looks like its continuation. */
  ghost predicate StrayAt(rmap: seq<U32>, at: nat) {
    && at < |rmap| && rmap[at] == at && at != ZERO_INDEX && (at > 0 ==> rmap[0] != 0)
    && forall k :: 0 <= k < at ==> rmap[k] != ZERO_INDEX && rmap[k] == rmap[0] + k
  }

  /** The reverse maps that lose entries. */
  ghost predicate Loses(rmap: seq<U32>, start: nat, end: nat) {
    start == 0 && exists at: nat :: at < end && StrayAt(rmap, at)
  }

  /** The smallest of them: one entry, block 0 in cluster 0. In the computation for a balloon entry 0 is never mapped
      (see `Fiemap.NoStray`). */
  lemma LosesOne()
    ensures Loses([0], 0, 1)
  {
    assert StrayAt([0], 0);
  }

  /** The extents are exactly the mapped entries. */
  ghost predicate Exact(rmap: seq<U32>, start: nat, end: nat, exts: seq<Extent>)
    requires end <= |rmap|
  {
    forall i: nat, c: nat :: InExts(exts, i, c) <==> (start <= i < end && rmap[i] != ZERO_INDEX && rmap[i] == c)
  }

  /** The loop variables and what they stand for: the current run, the extents written so far, and the
      interval `lo .. hi` of lost entries. */
  datatype Scan = Scan(clu: nat, iblk: nat, len: nat, open: bool)

  ghost predicate RunOk(rmap: seq<U32>, start: nat, at: nat, s: Scan)
    requires at <= |rmap|
  {
    if s.open then
      s.len > 0 && s.iblk + s.len == at && start <= s.iblk &&
      (forall k :: s.iblk <= k < at ==> rmap[k] != ZERO_INDEX && rmap[k] == s.clu + (k - s.iblk)) &&
      (s.iblk == 0 ==> s.clu != 0)
    else s.clu == 0 && s.iblk == 0 && s.len <= at
  }

  ghost predicate LostOk(rmap: seq<U32>, start: nat, at: nat, s: Scan, lo: nat, hi: nat)
    requires at <= |rmap|
  {
    && lo <= hi <= at && (at == start ==> s == Scan(0, 0, 0, false))
    && (lo < hi ==> start == 0 && StrayAt(rmap, lo) && forall k :: lo <= k < hi ==> rmap[k] == k)
    && (lo == hi ==> !Loses(rmap, start, at))
    && (!s.open && s.len == at && at > start ==> lo < hi == at)
    && (start == 0 && at > 0 && lo == hi && rmap[0] != 0 && (forall k :: 0 <= k < at ==>
        rmap[k] != ZERO_INDEX && rmap[k] == rmap[0] + k) ==>
          s.open && s.iblk == 0)
  }

  /** The extents are sorted, maximal and exactly the mapped entries of `start .. base` but `lo .. hi`. */
  ghost predicate Written(rmap: seq<U32>, start: nat, base: nat, lo: nat, hi: nat, exts: seq<Extent>)
    requires base <= |rmap|
  {
    && Sorted(exts) && Maximal(exts)
    && (forall k :: 0 <= k < |exts| ==> start <= exts[k].iblk && exts[k].iblk + exts[k].len <= base)
    && (forall k, i: nat :: 0 <= k < |exts| && exts[k].Holds(i) ==>
          rmap[i] != ZERO_INDEX && rmap[i] == exts[k].clu + (i - exts[k].iblk) && !(lo <= i < hi))
    && (forall i: nat :: start <= i < base && rmap[i] != ZERO_INDEX && !(lo <= i < hi) ==> BlockIn(exts, i))
  }

  ghost predicate DoneOk(rmap: seq<U32>, start: nat, at: nat, s: Scan, lo: nat, hi: nat, exts: seq<Extent>)
    requires at <= |rmap|
  {
    var base := if s.open then s.iblk else at;
    && base <= at && Written(rmap, start, base, lo, hi, exts)
    && (|exts| > 0 ==> if s.open then !Joins(exts[|exts| - 1], Current(s)) else
          exts[|exts| - 1].iblk + exts[|exts| - 1].len < at)
    && (s.open && lo < hi ==> hi <= s.iblk)
  }

  function Current(s: Scan): Extent { Extent(s.clu, s.iblk, s.len) }

  /** What the run is after entry `at`. */
  function NextScan(s: Scan, at: nat, clu: U32): Scan {
    var s1 := if Closes(s, at, clu) then Scan(0, 0, s.len, false) else s;
    if clu == ZERO_INDEX then s1
    else if at == s1.iblk + s1.len && clu == s1.clu + s1.len then s1.(len := s1.len + 1)
    else Scan(clu, at, 1, true)
  }

  /** Entry `at` ends the current run. */
  predicate Closes(s: Scan, at: nat, clu: U32) {
    s.open && (clu == ZERO_INDEX || !(at == s.iblk + s.len && clu == s.clu + s.len))
  }

  lemma RunStep(rmap: seq<U32>, start: nat, at: nat, s: Scan)
    requires start <= at < |rmap| && RunOk(rmap, start, at, s) && (at == start ==> s == Scan(0, 0, 0, false))
    ensures RunOk(rmap, start, at + 1, NextScan(s, at, rmap[at]))
  {
  }

  /** Entry `at` is lost: it is taken for the continuation of a run that is closed. */
  predicate Lost(s: Scan, at: nat, clu: U32) { clu != ZERO_INDEX && !NextScan(s, at, clu).open }

  lemma LostStep(rmap: seq<U32>, start: nat, at: nat, s: Scan, lo: nat, hi: nat)
    requires start <= at < |rmap| && RunOk(rmap, start, at, s) && LostOk(rmap, start, at, s, lo, hi)
    requires s.open && lo < hi ==> hi <= s.iblk
    ensures var s' := NextScan(s, at, rmap[at]);
      if Lost(s, at, rmap[at]) then LostOk(rmap, start, at + 1, s', if lo < hi then lo else at, at + 1)
      else LostOk(rmap, start, at + 1, s', lo, hi)
  {
  }

  function NextExts(s: Scan, at: nat, clu: U32, exts: seq<Extent>): seq<Extent> {
    if Closes(s, at, clu) then exts + [Current(s)] else exts
  }

  /** Adding the run in hand: everything before `at` is then written out. */
  lemma Closed(rmap: seq<U32>, start: nat, at: nat, s: Scan, lo: nat, hi: nat, exts: seq<Extent>)
    requires at <= |rmap| && s.open && RunOk(rmap, start, at, s) && DoneOk(rmap, start, at, s, lo, hi, exts)
    ensures Written(rmap, start, at, lo, hi, exts + [Current(s)])
  {
    var e := exts + [Current(s)];
    forall i: nat | start <= i < at && rmap[i] != ZERO_INDEX && !(lo <= i < hi) ensures BlockIn(e, i) {
      if i < s.iblk {
        var k :| 0 <= k < |exts| && exts[k].Holds(i);
        assert e[k].Holds(i);
      } else {
        assert e[|exts|].Holds(i);
      }
    }
  }

  /** An entry that is not mapped, or lost, adds nothing. */
  lemma WrittenMore(rmap: seq<U32>, start: nat, at: nat, lo: nat, hi: nat, lo': nat, hi': nat, exts: seq<Extent>)
    requires start <= at < |rmap| && Written(rmap, start, at, lo, hi, exts)
    requires (rmap[at] == ZERO_INDEX && lo' == lo && hi' == hi) || (hi' == at + 1 && lo' == at && lo == hi) ||
      (hi' == at + 1 && lo' == lo < hi == at)
    ensures Written(rmap, start, at + 1, lo', hi', exts)
  {
    forall k, i: nat | 0 <= k < |exts| && exts[k].Holds(i)
      ensures rmap[i] != ZERO_INDEX && rmap[i] == exts[k].clu + (i - exts[k].iblk) && !(lo' <= i < hi')
    {
      assert exts[k].iblk + exts[k].len <= at;
    }
    forall i: nat | start <= i < at + 1 && rmap[i] != ZERO_INDEX && !(lo' <= i < hi') ensures BlockIn(exts, i) {
      assert i < at && !(lo <= i < hi);
    }
  }

  lemma DoneClosing(rmap: seq<U32>, start: nat, at: nat, s: Scan, lo: nat, hi: nat, exts: seq<Extent>)
    requires start <= at < |rmap| && RunOk(rmap, start, at, s) && LostOk(rmap, start, at, s, lo, hi)
    requires DoneOk(rmap, start, at, s, lo, hi, exts)
    requires Closes(s, at, rmap[at])
    ensures var s', clu, e := NextScan(s, at, rmap[at]), rmap[at], exts + [Current(s)];
      if Lost(s, at, clu) then DoneOk(rmap, start, at + 1, s', at, at + 1, e) && lo == hi
      else DoneOk(rmap, start, at + 1, s', lo, hi, e)
  {
    var clu, e := rmap[at], exts + [Current(s)];
    Closed(rmap, start, at, s, lo, hi, exts);
    if Lost(s, at, clu) {
      WrittenMore(rmap, start, at, lo, hi, at, at + 1, e);
    } else if clu == ZERO_INDEX {
      WrittenMore(rmap, start, at, lo, hi, lo, hi, e);
    }
  }

  lemma DoneKeeping(rmap: seq<U32>, start: nat, at: nat, s: Scan, lo: nat, hi: nat, exts: seq<Extent>)
    requires start <= at < |rmap| && RunOk(rmap, start, at, s) && LostOk(rmap, start, at, s, lo, hi)
    requires DoneOk(rmap, start, at, s, lo, hi, exts)
    requires !Closes(s, at, rmap[at])
    ensures var s', clu := NextScan(s, at, rmap[at]), rmap[at];
      if Lost(s, at, clu) then DoneOk(rmap, start, at + 1, s', if lo < hi then lo else at, at + 1, exts)
      else DoneOk(rmap, start, at + 1, s', lo, hi, exts)
  {
    var clu := rmap[at];
    if Lost(s, at, clu) {
      WrittenMore(rmap, start, at, lo, hi, if lo < hi then lo else at, at + 1, exts);
    } else if clu == ZERO_INDEX {
      WrittenMore(rmap, start, at, lo, hi, lo, hi, exts);
    }
  }

  /** The invariant of the scan, for some lost interval. */
  ghost predicate ScanOk(rmap: seq<U32>, start: nat, at: nat, s: Scan, exts: seq<Extent>)
    requires at <= |rmap|
  {
    exists lo: nat, hi: nat ::
      RunOk(rmap, start, at, s) && LostOk(rmap, start, at, s, lo, hi) && DoneOk(rmap, start, at, s, lo, hi, exts)
  }

  lemma ScanStep(rmap: seq<U32>, start: nat, at: nat, s: Scan, exts: seq<Extent>)
    requires start <= at < |rmap| && ScanOk(rmap, start, at, s, exts)
    ensures ScanOk(rmap, start, at + 1, NextScan(s, at, rmap[at]), NextExts(s, at, rmap[at], exts))
  {
    var lo: nat, hi: nat :| RunOk(rmap, start, at, s) && LostOk(rmap, start, at, s, lo, hi) &&
      DoneOk(rmap, start, at, s, lo, hi, exts);
    RunStep(rmap, start, at, s);
    LostStep(rmap, start, at, s, lo, hi);
    if Closes(s, at, rmap[at]) { DoneClosing(rmap, start, at, s, lo, hi, exts); } else { DoneKeeping(rmap, start, at, s,
      lo, hi, exts); }
  }

  /** The loop, from any start of the invariant. */
  method ScanLoop(rmap: array<U32>, start: nat, end: nat, freemap: seq<Extent>,
        ghost inv: (nat, Scan, seq<Extent>) -> bool)
    returns (r: seq<Extent>, s: Scan, ghost exts: seq<Extent>)
    requires start <= end <= rmap.Length && inv(start, Scan(0, 0, 0, false), [])
    requires forall at: nat, s, e :: start <= at < end && inv(at, s, e) ==>
      inv(at + 1, NextScan(s, at, rmap[at]), NextExts(s, at, rmap[at], e))
    ensures r == freemap + exts && inv(end, s, exts)
  {
    var clu: nat, iblk: nat, len: nat, state := 0, 0, 0, false;
    r, exts := freemap, [];
    var at: nat := start;
    while at < end
      invariant start <= at <= end && r == freemap + exts && inv(at, Scan(clu, iblk, len, state), exts)
    {
      ghost var was := Scan(clu, iblk, len, state);
      exts := NextExts(was, at, rmap[at], exts);
      var c := rmap[at];
      if (c == ZERO_INDEX && state) || (c != ZERO_INDEX && state && !(at == iblk + len && c == clu + len)) {
        r := r + [Extent(clu, iblk, len)];
        clu, iblk, state := 0, 0, false;
      }
      if c != ZERO_INDEX {
        if at == iblk + len && c == clu + len {
          len := len + 1;
        } else {
          clu, iblk, len, state := c, at, 1, true;
        }
      }
      assert Scan(clu, iblk, len, state) == NextScan(was, at, c);
      at := at + 1;
    }
    s := Scan(clu, iblk, len, state);
  }

  /** `rmap2freemap` after the entries the caller's list already has. The new extents are sorted, disjoint and
      maximal, and exactly the mapped entries, unless the map is one of those that lose entries. */
  method Rmap2Freemap(rmap: array<U32>, start: nat, end: nat, freemap: seq<Extent>) returns (r: seq<Extent>)
    requires start <= end <= rmap.Length
    ensures freemap <= r && Sorted(r[|freemap|..]) && Maximal(r[|freemap|..])
    ensures Exact(rmap[..], start, end, r[|freemap|..]) <==> !Loses(rmap[..], start, end)
  {
    ghost var m := rmap[..];
    ghost var inv := (at: nat, s, e) => at <= |m| && ScanOk(m, start, at, s, e);
    ScanStart(m, start);
    forall at: nat, s, e | start <= at < end && inv(at, s, e)
      ensures inv(at + 1, NextScan(s, at, m[at]), NextExts(s, at, m[at], e))
    {
      ScanStep(m, start, at, s, e);
    }
    var s;
    ghost var exts;
    r, s, exts := ScanLoop(rmap, start, end, freemap, inv);
    Finished(m, start, end, s, exts);
    if s.open {
      r := r + [Extent(s.clu, s.iblk, s.len)];
      exts := exts + [Current(s)];
    }
    assert r[|freemap|..] == exts;
  }

  lemma ScanStart(rmap: seq<U32>, start: nat)
    requires start <= |rmap|
    ensures ScanOk(rmap, start, start, Scan(0, 0, 0, false), [])
  {
    var s := Scan(0, 0, 0, false);
    assert RunOk(rmap, start, start, s) && LostOk(rmap, start, start, s, start, start) &&
      DoneOk(rmap, start, start, s, start, start, []);
  }

  lemma WrittenExact(rmap: seq<U32>, start: nat, end: nat, lo: nat, hi: nat, e: seq<Extent>)
    requires end <= |rmap| && Written(rmap, start, end, lo, hi, e)
    ensures forall i: nat, c: nat :: InExts(e, i, c) <==>
      (start <= i < end && rmap[i] != ZERO_INDEX && rmap[i] == c && !(lo <= i < hi))
  {
    forall i: nat, c: nat ensures InExts(e, i, c) <==>
      (start <= i < end && rmap[i] != ZERO_INDEX && rmap[i] == c && !(lo <= i < hi)) {
      if start <= i < end && rmap[i] != ZERO_INDEX && rmap[i] == c && !(lo <= i < hi) {
        assert BlockIn(e, i);
        var k :| 0 <= k < |e| && e[k].Holds(i);
        assert e[k].Has(i, c);
      } else if InExts(e, i, c) {
        var k :| 0 <= k < |e| && e[k].Has(i, c);
        assert e[k].Holds(i);
      }
    }
  }

  lemma Finished(rmap: seq<U32>, start: nat, end: nat, s: Scan, exts: seq<Extent>)
    requires end <= |rmap| && ScanOk(rmap, start, end, s, exts)
    ensures var e := if s.open then exts + [Current(s)] else exts;
      Sorted(e) && Maximal(e) && (Exact(rmap, start, end, e) <==> !Loses(rmap, start, end))
  {
    var e := if s.open then exts + [Current(s)] else exts;
    var lo: nat, hi: nat :| RunOk(rmap, start, end, s) && LostOk(rmap, start, end, s, lo, hi) &&
      DoneOk(rmap, start, end, s, lo, hi, exts);
    if s.open { Closed(rmap, start, end, s, lo, hi, exts); }
    WrittenExact(rmap, start, end, lo, hi, e);
    if lo < hi { assert !InExts(e, lo, lo); }
  }

  // ---------- splitting a range at the free blocks ----------

  ghost predicate InRelocs(rs: seq<Reloc>, block: nat, cluster: nat) {
    exists k :: 0 <= k < |rs| && rs[k].ext.Has(block, cluster)
  }

  ghost predicate SortedRelocs(rs: seq<Reloc>) {
    && (forall k :: 0 <= k < |rs| ==> rs[k].ext.len > 0)
    && (forall j, k :: 0 <= j < k < |rs| ==> rs[j].ext.iblk + rs[j].ext.len <= rs[k].ext.iblk)
  }

  /** Every piece lies wholly inside or wholly outside the free blocks, and says which. */
  ghost predicate RightFlags(rs: seq<Reloc>, freemap: seq<Extent>) {
    forall k, i: nat :: 0 <= k < |rs| && rs[k].ext.Holds(i) ==> (rs[k].free <==> BlockIn(freemap, i))
  }

  /** The pieces are the range: the same pairs of block and cluster, in order. */
  ghost predicate SplitOf(rs: seq<Reloc>, range: seq<Extent>) {
    SortedRelocs(rs) && forall i: nat, c: nat :: InRelocs(rs, i, c) <==> InExts(range, i, c)
  }

  /** The first `i` extents of the range, and `done` blocks of the next one. */
  ghost predicate SplitUpTo(rs: seq<Reloc>, range: seq<Extent>, i: nat, done: nat)
    requires i <= |range|
  {
    && SortedRelocs(rs)
    && (i < |range| ==> done <= range[i].len) && (i == |range| ==> done == 0)
    && |rs| >= i + (if done > 0 then 1 else 0)
    && (forall k :: 0 <= k < |rs| ==>
          rs[k].ext.iblk + rs[k].ext.len <= if i < |range| && done > 0 then range[i].iblk + done
                                            else if i > 0 then range[i - 1].iblk + range[i - 1].len else 0)
    && (forall b: nat, c: nat :: InRelocs(rs, b, c) <==>
          (InExts(range[..i], b, c) || (i < |range| && range[i].Has(b, c) && b < range[i].iblk + done)))
  }

  /** One more piece of extent `i`. */
  lemma PieceStep(rs: seq<Reloc>, range: seq<Extent>, i: nat, done: nat, l: nat, free: bool)
    requires i < |range| && Sorted(range) && SplitUpTo(rs, range, i, done) && 0 < l && done + l <= range[i].len
    ensures SplitUpTo(rs + [Reloc(Extent(range[i].clu + done, range[i].iblk + done, l), free)], range, i, done + l)
  {
    var p := Reloc(Extent(range[i].clu + done, range[i].iblk + done, l), free);
    var rs' := rs + [p];
    forall b: nat, c: nat
      ensures InRelocs(rs', b, c) <==>
        (InExts(range[..i], b, c) || (range[i].Has(b, c) && b < range[i].iblk + done + l))
    {
      assert rs'[|rs|] == p;
      if InRelocs(rs, b, c) {
        var k :| 0 <= k < |rs| && rs[k].ext.Has(b, c);
        assert rs'[k].ext.Has(b, c);
      }
      if range[i].Has(b, c) && range[i].iblk + done <= b < range[i].iblk + done + l { assert rs'[|rs|].ext.Has(b, c); }
    }
  }

  /** Extent `i` is through. */
  lemma ExtentDone(rs: seq<Reloc>, range: seq<Extent>, i: nat)
    requires i < |range| && Sorted(range) && SplitUpTo(rs, range, i, range[i].len)
    ensures SplitUpTo(rs, range, i + 1, 0)
  {
    forall b: nat, c: nat ensures InRelocs(rs, b, c) <==> InExts(range[..i + 1], b, c) {
      if InExts(range[..i], b, c) {
        var k :| 0 <= k < i && range[..i][k].Has(b, c);
        assert range[..i + 1][k].Has(b, c);
      }
      if range[i].Has(b, c) { assert range[..i + 1][i].Has(b, c); }
      if InExts(range[..i + 1], b, c) && !range[i].Has(b, c) {
        var k :| 0 <= k < i + 1 && range[..i + 1][k].Has(b, c);
        assert range[..i][k].Has(b, c);
      }
    }
  }

  /** The first `j` free extents end before block `at`. */
  ghost predicate Passed(freemap: seq<Extent>, j: nat, at: nat)
    requires j <= |freemap|
  {
    forall k :: 0 <= k < j ==> freemap[k].iblk + freemap[k].len <= at
  }

  /** The piece starting at `at`: free up to the end of free extent `j`, or not free up to its start. */
  function PieceLen(freemap: seq<Extent>, j: nat, at: nat, len: nat): (l: nat)
    requires len > 0 && j < |freemap| && at < freemap[j].iblk + freemap[j].len
    ensures 0 < l <= len
  {
    var f := freemap[j];
    (if f.iblk <= at then Min(at + len, f.iblk + f.len) else Min(at + len, f.iblk)) - at
  }

  lemma PieceFlag(freemap: seq<Extent>, j: nat, at: nat, len: nat, i: nat)
    requires Sorted(freemap) && len > 0 && j < |freemap| && Passed(freemap, j, at)
    requires at < freemap[j].iblk + freemap[j].len
    requires at <= i < at + PieceLen(freemap, j, at, len)
    ensures freemap[j].iblk <= at <==> BlockIn(freemap, i)
  {
    if freemap[j].iblk <= at { assert freemap[j].Holds(i); }
  }

  lemma FlagsStep(rs: seq<Reloc>, freemap: seq<Extent>, p: Reloc)
    requires RightFlags(rs, freemap) && forall i: nat :: p.ext.Holds(i) ==> (p.free <==> BlockIn(freemap, i))
    ensures RightFlags(rs + [p], freemap)
  {
  }

  lemma NoFreeLeft(freemap: seq<Extent>, at: nat, i: nat)
    requires Passed(freemap, |freemap|, at) && at <= i
    ensures !BlockIn(freemap, i)
  {
  }

  /** `range_split`. Refines the range exactly; the final abort is not taken. */
  method RangeSplit(range: seq<Extent>, freemap: seq<Extent>) returns (ok: bool, rs: seq<Reloc>)
    requires Sorted(range) && Sorted(freemap)
    ensures ok && SplitOf(rs, range) && RightFlags(rs, freemap)
  {
    rs := [];
    var j, i := 0, 0;
    while i < |range|
      invariant 0 <= i <= |range| && 0 <= j <= |freemap| && SplitUpTo(rs, range, i, 0) && RightFlags(rs, freemap)
      invariant i < |range| ==> Passed(freemap, j, range[i].iblk)
    {
      rs, j := SplitExtent(range, i, freemap, j, rs);
      ExtentDone(rs, range, i);
      i := i + 1;
    }
    assert range[..i] == range;
    ok := |rs| >= |range|;
  }

  /** The next piece: up to the end of the free extent it starts in, or up to the start of the next one. */
  method NextPiece(freemap: seq<Extent>, j0: nat, ri: nat, rl: nat) returns (j: nat, l: nat, free: bool)
    requires Sorted(freemap) && j0 <= |freemap| && Passed(freemap, j0, ri) && rl > 0
    ensures j <= |freemap| && Passed(freemap, j, ri) && 0 < l <= rl
    ensures forall k: nat :: ri <= k < ri + l ==> (free <==> BlockIn(freemap, k))
  {
    j := j0;
    while j < |freemap| && freemap[j].iblk + freemap[j].len <= ri
      invariant j <= |freemap| && Passed(freemap, j, ri)
    {
      j := j + 1;
    }
    if j >= |freemap| {
      l, free := rl, false;
      forall k: nat | ri <= k ensures !BlockIn(freemap, k) { NoFreeLeft(freemap, ri, k); }
    } else {
      var f := freemap[j];
      free := f.iblk <= ri;
      l := if free then Min(ri + rl, f.iblk + f.len) - ri else Min(ri + rl, f.iblk) - ri;
      forall k: nat | ri <= k < ri + l ensures free <==> BlockIn(freemap, k) { PieceFlag(freemap, j, ri, rl, k); }
    }
  }

  /** The inner loop: extent `i`. */
  method SplitExtent(range: seq<Extent>, i: nat, freemap: seq<Extent>, j0: nat, rs0: seq<Reloc>)
    returns (rs: seq<Reloc>, j: nat)
    requires Sorted(range) && Sorted(freemap) && i < |range| && j0 <= |freemap|
    requires SplitUpTo(rs0, range, i, 0) && RightFlags(rs0, freemap) && Passed(freemap, j0, range[i].iblk)
    ensures SplitUpTo(rs, range, i, range[i].len) && RightFlags(rs, freemap)
    ensures j <= |freemap| && (i + 1 < |range| ==> Passed(freemap, j, range[i + 1].iblk))
  {
    rs, j := rs0, j0;
    var ri, rc, rl := range[i].iblk, range[i].clu, range[i].len;
    ghost var done := 0;
    while rl > 0
      invariant done + rl == range[i].len && ri == range[i].iblk + done && rc == range[i].clu + done
      invariant SplitUpTo(rs, range, i, done) && RightFlags(rs, freemap)
      invariant j <= |freemap| && Passed(freemap, j, ri)
    {
      var l, free;
      j, l, free := NextPiece(freemap, j, ri, rl);
      PieceStep(rs, range, i, done, l, free);
      FlagsStep(rs, freemap, Reloc(Extent(rc, ri, l), free));
      rs := rs + [Reloc(Extent(rc, ri, l), free)];
      ri, rc, rl, done := ri + l, rc + l, rl - l, done + l;
    }
    ExtentPassed(range, i, freemap, j);
  }

  lemma ExtentPassed(range: seq<Extent>, i: nat, freemap: seq<Extent>, j: nat)
    requires Sorted(range) && i < |range| && j <= |freemap| && Passed(freemap, j, range[i].iblk + range[i].len)
    ensures i + 1 < |range| ==> Passed(freemap, j, range[i + 1].iblk)
  {
  }
}
