/** Growing a delta offline: relocating the clusters under the new index, one at a time. */
module Grow {
  import opened Image
  import opened Disk
  import opened Geometry
  import opened DeltaFile

  // ---------- what must survive a crash ----------

  /** `c` is a valid image and shows the old device under the old header, and the old device followed by holes under
      the new one. */
  ghost predicate ShowsOld(img0: Img, h1: Header, c: Img) {
    && Valid(c) && (c.hdr.SameLayout(img0.hdr) || c.hdr.SameLayout(h1))
    && (forall v: nat :: v < img0.hdr.L2() ==> Read(c, v) == Read(img0, v))
    && (c.hdr.SameLayout(h1) ==> forall v: nat :: img0.hdr.L2() <= v < h1.L2() ==> Read(c, v) == Hole)
  }

  // ---------- relation between the image being grown and the original ----------

  /** Every slot of `d` leads to the data the same slot of `img0` leads to. */
  ghost predicate SameMap(img0: Img, d: Img) {
    && Valid(d) && d.hdr == img0.hdr && |img0.blocks| <= |d.blocks| && img0.hdr.L1() <= |img0.blocks|
    && (forall v: nat :: v < d.hdr.L2() ==> (Slot(d, v) == 0 <==> Slot(img0, v) == 0))
    && (forall v: nat :: v < d.hdr.L2() && Slot(d, v) != 0 ==>
          Points(Slot(d, v), d) && Points(Slot(img0, v), img0) &&
          d.blocks[Target(d, v)] == img0.blocks[Target(img0, v)])
  }

  /** Cluster `b` holds neither index nor referenced data. */
  ghost predicate Unused(d: Img, b: nat)
    requires d.hdr.blocksize > 0
  {
    b >= d.hdr.L1() && forall v: nat :: v < d.hdr.L2() && Slot(d, v) != 0 ==> Target(d, v) != b
  }

  ghost predicate QuietWrite(d: Img, w: Write)
    requires d.hdr.blocksize > 0
  {
    w.WordsAt? && Unused(d, w.block)
  }

  /** All pending writes go to clusters nothing refers to. */
  ghost predicate Quiet(d: Img, log: seq<Write>)
    requires d.hdr.blocksize > 0
  {
    forall k :: 0 <= k < |log| ==> QuietWrite(d, log[k])
  }

  function Zeros(n: nat): Block { seq(n, _ => 0) }

  /** The part of the invariant about the current image: clusters from the old end of the index up to
      `lo`, and from `mid` up to `hi`, are zero and unused. */
  ghost predicate Cleared(img0: Img, d: Img, lo: nat, mid: nat, hi: nat) {
    && SameMap(img0, d)
    && img0.hdr.L1() <= lo <= mid <= hi <= |d.blocks|
    && (forall b: nat :: b < |d.blocks| && (d.hdr.L1() <= b < lo || mid <= b < hi) ==>
          d.blocks[b] == Zeros(d.hdr.Words()) && Unused(d, b))
  }

  // ---------- crash lemmas, one for each shape of the pending writes ----------

  lemma SameSlots(d: Img, c: Img)
    requires WellSized(d) && d.hdr.L1() <= |d.blocks| <= |c.blocks|
    requires c.hdr.blocksize == d.hdr.blocksize
    requires forall b :: 0 <= b < d.hdr.L1() ==> c.blocks[b] == d.blocks[b]
    ensures forall v: nat :: SlotBlock(v, d.hdr.Words()) < d.hdr.L1() ==> Slot(c, v) == Slot(d, v)
  {
  }

  lemma QuietCrash(img0: Img, h1: Header, s: Snap, c: Img)
    requires SameMap(img0, s.dur) && Quiet(s.dur, s.log) && Possible(s, c)
    ensures c.hdr == img0.hdr && ShowsOld(img0, h1, c)
  {
    var d := s.dur;
    forall b | 0 <= b < d.hdr.L1() ensures c.blocks[b] == d.blocks[b] { Untouched(s, c, b); }
    SameSlots(d, c);
    forall v: nat | v < img0.hdr.L2() ensures Read(c, v) == Read(img0, v) {
      if Slot(d, v) != 0 { Untouched(s, c, Target(d, v)); }
    }
  }

  /** A file that only grew past its end reads the same. */
  lemma ReadExtended(d: Img, c: Img, v: nat)
    requires Valid(d) && c.hdr.SameLayout(d.hdr) && d.blocks <= c.blocks
    ensures Read(c, v) == Read(d, v)
  {
    if v < d.hdr.L2() {
      assert Slot(c, v) == Slot(d, v);
    }
  }

  ghost predicate Larger(h0: Header, h1: Header) {
    h1.blocksize == h0.blocksize > 0 && h1.version == h0.version && h0.L1() <= h1.L1() && h0.L2() <= h1.L2() &&
    IndexCovers(h1)
  }

  /** Once the space of the new index is cleared, the new header turns `d` into a valid larger image. */
  lemma GrownImage(img0: Img, d: Img, mid: nat, h: Header)
    requires Larger(img0.hdr, h) && Cleared(img0, d, mid, mid, h.L1()) && h.L1() <= |d.blocks|
    ensures Valid(d.(hdr := h)) && ShowsOld(img0, h, d.(hdr := h))
  {
    var e, n := d.(hdr := h), h.Words();
    assert forall v: nat :: Slot(e, v) == Slot(d, v);
    forall v: nat | v >= d.hdr.L2() && SlotBlock(v, n) < h.L1() ensures Slot(e, v) == 0 {
    }
    forall v: nat | v < h.L2() && Slot(e, v) != 0 ensures v < d.hdr.L2() && Points(Slot(e, v), e) {
      var b := Target(d, v);
      assert d.hdr.L1() <= b < h.L1() ==> Unused(d, b);
    }
  }

  /** While only header fields are pending, a crash leaves the old or the new header over cleared space. */
  lemma HeaderCrash(img0: Img, h1: Header, s: Snap, c: Img, mid: nat)
    requires Valid(img0) && Larger(img0.hdr, h1) && Cleared(img0, s.dur, mid, mid, h1.L1()) && h1.L1() <= |s.dur.blocks|
    requires forall k :: 0 <= k < |s.log| ==> HeaderWrite(h1, s.log[k])
    requires Possible(s, c)
    ensures ShowsOld(img0, h1, c)
  {
    HeaderOnly(h1, s, c);
    if c.hdr.SameLayout(h1) {
      GrownImage(img0, s.dur, mid, h1);
      SameIndexValid(s.dur.(hdr := h1), c);
      forall v: nat ensures Read(c, v) == Read(s.dur.(hdr := h1), v) { ReadExtended(s.dur.(hdr := h1), c, v); }
    } else {
      SameIndexValid(s.dur, c);
      forall v: nat | v < img0.hdr.L2() ensures Read(c, v) == Read(img0, v) {
        assert Slot(c, v) == Slot(s.dur, v);
      }
    }
  }

  predicate HeaderWrite(h1: Header, w: Write) {
    w.InUseAt? || w.FlagsAt? || (w.HeaderAt? && w.hdr.SameLayout(h1))
  }

  lemma HeaderOnly(h1: Header, s: Snap, c: Img)
    requires WellSized(s.dur) && Possible(s, c)
    requires forall k :: 0 <= k < |s.log| ==> HeaderWrite(h1, s.log[k])
    ensures s.dur.blocks <= c.blocks && (c.hdr.SameLayout(s.dur.hdr) || c.hdr.SameLayout(h1))
  {
    forall b | 0 <= b < |s.dur.blocks| ensures c.blocks[b] == s.dur.blocks[b] { Untouched(s, c, b); }
    var base: Header :| && (base == s.dur.hdr || HeaderAt(base) in s.log)
      && (c.hdr.version == base.version || VersionAt(c.hdr.version) in s.log)
      && c.hdr == base.(version := c.hdr.version, inUse := c.hdr.inUse, flags := c.hdr.flags);
  }

  // ---------- the three kinds of step ----------

  lemma AppendedUnused(img0: Img, d: Img, w: Write)
    requires SameMap(img0, d) && w.WordsAt? && w.block == |d.blocks| && Fitting(d, w)
    ensures SameMap(img0, Apply(d, w)) && Unused(Apply(d, w), |d.blocks|) && QuietWrite(d, w)
    ensures forall b: nat :: Unused(d, b) ==> Unused(Apply(d, w), b)
    ensures forall v: nat :: SlotBlock(v, d.hdr.Words()) < d.hdr.L1() ==> Slot(Apply(d, w), v) == Slot(d, v)
  {
    SameSlots(d, Apply(d, w));
  }

  lemma AppendStep(img0: Img, d: Img, w: Write, lo: nat, mid: nat, hi: nat)
    requires Cleared(img0, d, lo, mid, hi)
    requires w.WordsAt? && w.block == |d.blocks| && Fitting(d, w)
    ensures Cleared(img0, Apply(d, w), lo, mid, hi) && Unused(Apply(d, w), |d.blocks|) && QuietWrite(d, w)
    ensures forall b: nat :: Unused(d, b) ==> Unused(Apply(d, w), b)
    ensures hi == |d.blocks| >= mid && w.words == Zeros(d.hdr.Words()) ==> Cleared(img0, Apply(d, w), lo, mid, hi + 1)
    ensures forall v: nat :: SlotBlock(v, d.hdr.Words()) < d.hdr.L1() ==> Slot(Apply(d, w), v) == Slot(d, v)
  {
    AppendedUnused(img0, d, w);
  }

  function Redirect(d: Img, v: nat, x: U32): Write
    requires d.hdr.Words() > 0
  {
    WordsAt(SlotBlock(v, d.hdr.Words()), SlotWord(v, d.hdr.Words()), [x])
  }

  lemma RedirectedSlots(d: Img, v: nat, x: U32)
    requires WellSized(d) && SlotBlock(v, d.hdr.Words()) < |d.blocks|
    ensures Fitting(d, Redirect(d, v, x))
    ensures forall u: nat :: Slot(Apply(d, Redirect(d, v, x)), u) == if u == v then x else Slot(d, u)
  {
    var d' := Apply(d, Redirect(d, v, x));
    forall u: nat ensures Slot(d', u) == if u == v then x else Slot(d, u) {
      if SlotBlock(u, d.hdr.Words()) == SlotBlock(v, d.hdr.Words()) &&
        SlotWord(u, d.hdr.Words()) == SlotWord(v, d.hdr.Words()) {
        SlotDistinct(u, v, d.hdr.Words());
      }
    }
  }

  /** Redirecting slot `v` to a copy of its cluster. */
  lemma RedirectMap(img0: Img, d: Img, v: nat, x: U32)
    requires SameMap(img0, d) && v < d.hdr.L2() && Slot(d, v) != 0 && x != 0 && Points(x, d)
    requires var b := BlockOf(x, d.hdr.blocksize, d.hdr.version); Unused(d, b) && d.blocks[b] == d.blocks[Target(d, v)]
    ensures Fitting(d, Redirect(d, v, x)) && SameMap(img0, Apply(d, Redirect(d, v, x)))
    ensures forall b :: d.hdr.L1() <= b < |d.blocks| ==> Apply(d, Redirect(d, v, x)).blocks[b] == d.blocks[b]
    ensures forall u: nat :: Slot(Apply(d, Redirect(d, v, x)), u) == if u == v then x else Slot(d, u)
    ensures Unused(Apply(d, Redirect(d, v, x)), Target(d, v))
  {
    var d' := Apply(d, Redirect(d, v, x));
    RedirectedSlots(d, v, x);
    forall u: nat | u < d.hdr.L2() && u != v && Slot(d, u) != 0
      ensures Target(d, u) != Target(d, v) && Slot(d', u) != x
    {
      EncBlockOf(Slot(d, u), d.hdr.blocksize, d.hdr.version);
      EncBlockOf(Slot(d, v), d.hdr.blocksize, d.hdr.version);
      assert u < v ==> Slot(d, u) != Slot(d, v);
      assert v < u ==> Slot(d, v) != Slot(d, u);
    }
  }

  lemma RedirectStep(img0: Img, d: Img, v: nat, lo: nat, mid: nat, hi: nat, x: U32)
    requires Cleared(img0, d, lo, mid, hi) && v < d.hdr.L2() && Slot(d, v) != 0
    requires x != 0 && Points(x, d)
    requires var b := BlockOf(x, d.hdr.blocksize, d.hdr.version);
      b >= lo && !(mid <= b < hi) && Unused(d, b) && d.blocks[b] == d.blocks[Target(d, v)]
    ensures Fitting(d, Redirect(d, v, x))
    ensures Cleared(img0, Apply(d, Redirect(d, v, x)), lo, mid, hi)
    ensures Unused(Apply(d, Redirect(d, v, x)), Target(d, v))
  {
    var d' := Apply(d, Redirect(d, v, x));
    RedirectMap(img0, d, v, x);
    forall b: nat | b < |d'.blocks| && (d.hdr.L1() <= b < lo || mid <= b < hi) ensures Unused(d', b) {
      assert Unused(d, b);
    }
  }

  /** A single pending word is on the disk or not. */
  lemma WordCrash(s: Snap, c: Img, b: nat, o: nat, x: U32)
    requires WellSized(s.dur) && b < |s.dur.blocks| && o < s.dur.hdr.Words() && s.log == [WordsAt(b, o, [x])]
    requires Possible(s, c)
    ensures c.hdr == s.dur.hdr && (s.dur.blocks <= c.blocks || Apply(s.dur, s.log[0]).blocks <= c.blocks)
  {
    var d, d' := s.dur, Apply(s.dur, s.log[0]);
    forall i | 0 <= i < |d.blocks| && i != b ensures c.blocks[i] == d.blocks[i] { Untouched(s, c, i); }
    forall i | 0 <= i < d.hdr.Words() && i != o ensures c.blocks[b][i] == d.blocks[b][i] { WordKept(s, c, b, i); }
    if c.blocks[b][o] == d.blocks[b][o] {
      assert c.blocks[b] == d.blocks[b];
    } else {
      assert Puts(s.log[0], b, o, c.blocks[b][o]);
      assert c.blocks[b] == d'.blocks[b];
    }
  }

  /** While the write of one index entry is pending, the old and the new entry lead to equal data. */
  lemma RedirectCrash(img0: Img, h1: Header, s: Snap, c: Img, v: nat, x: U32)
    requires SameMap(img0, s.dur) && Possible(s, c) && v < s.dur.hdr.L2() && Slot(s.dur, v) != 0
    requires x != 0 && Points(x, s.dur)
    requires var b := BlockOf(x, s.dur.hdr.blocksize, s.dur.hdr.version);
      Unused(s.dur, b) &&
      s.dur.blocks[b] == s.dur.blocks[Target(s.dur, v)]
    requires s.log == [Redirect(s.dur, v, x)]
    ensures ShowsOld(img0, h1, c)
  {
    var d, n := s.dur, s.dur.hdr.Words();
    RedirectMap(img0, d, v, x);
    SlotPosition(v, n);
    WordCrash(s, c, SlotBlock(v, n), SlotWord(v, n), x);
    var e := if d.blocks <= c.blocks then d else Apply(d, s.log[0]);
    SameIndexValid(e, c);
    forall u: nat | u < img0.hdr.L2() ensures Read(c, u) == Read(img0, u) { ReadExtended(e, c, u); }
  }

  lemma ZeroStep(img0: Img, d: Img, i: nat, mid: nat, hi: nat)
    requires Cleared(img0, d, i, mid, hi) && i < mid <= hi && Unused(d, i) && i < |d.blocks|
    ensures var w := WordsAt(i, 0, Zeros(d.hdr.Words()));
      Fitting(d, w) && QuietWrite(d, w) && Cleared(img0, Apply(d, w), i + 1, mid, hi)
    ensures Apply(d, WordsAt(i, 0, Zeros(d.hdr.Words()))).blocks == d.blocks[i := Zeros(d.hdr.Words())]
  {
    var d' := Apply(d, WordsAt(i, 0, Zeros(d.hdr.Words())));
    assert Patch(d.blocks[i], 0, Zeros(d.hdr.Words())) == Zeros(d.hdr.Words());
    SameSlots(d, d');
    forall b: nat | b < |d'.blocks| && (d.hdr.L1() <= b < i + 1 || mid <= b < hi) ensures Unused(d', b) {
      assert Unused(d, b);
    }
  }

  // ---------- the program ----------

  function AppendCopy(d: Img, b: nat): Write
    requires b < |d.blocks|
  {
    WordsAt(|d.blocks|, 0, d.blocks[b])
  }

  /** What relocating cluster `i` for slot `v` records, after the steps `t`. */
  function RelocationTrace(s: Snap, d0: Img, i: nat, v: nat, t: seq<Snap>): seq<Snap>
    requires d0.hdr.blocksize > 0 && i < |d0.blocks|
    requires Fitting(d0, AppendCopy(d0, i))
  {
    var d1 := Apply(d0, AppendCopy(d0, i));
    t + [Snap(s.dur, s.log + [AppendCopy(d0, i)]), Snap(d1, []),
         Snap(d1, [Redirect(d1, v, Enc(|d0.blocks|, d0.hdr.blocksize, d0.hdr.version))])]
  }

  /** Moves file cluster `iblk` to the end of the file if some slot refers to it: data, fsync, then index.
      Returns 0 if no slot refers to it, 1 if slot `v` did, -1 if the index is too short for the device. */
  method RelocateBlock(d: Delta, iblk: nat) returns (rc: int, ghost v: nat)
    requires d.Synced() && 0 < iblk < d.allocHead && Fits(d.allocHead, d.blocksize, d.version)
    modifies d, d.file
    ensures d.Synced() && -1 <= rc <= 1
    ensures rc == -1 ==> v < d.l2Size && SlotBlock(v, d.blocksize * 128) >= d.l1Size
    ensures rc != 1 ==> unchanged(d.file)
    ensures rc == 0 ==> forall u: nat :: u < d.l2Size ==> Slot(d.file.cur, u) != Enc(iblk, d.blocksize, d.version)
    ensures rc == 1 ==>
      var d0, x := old(d.file.cur), Enc(|old(d.file.cur).blocks|, d.blocksize, d.version);
      var d1 := Apply(d0, AppendCopy(d0, iblk));
      && v < d.l2Size && SlotBlock(v, d.blocksize * 128) < d.l1Size
      && Slot(d0, v) == Enc(iblk, d.blocksize, d.version)
      && Fitting(d1, Redirect(d1, v, x))
      && d.file.cur == Apply(d1, Redirect(d1, v, x)) && d.file.dur == d1 && d.file.log == [Redirect(d1, v, x)]
      && d.file.trace == RelocationTrace(Snap(old(d.file.dur), old(d.file.log)), d0, iblk, v, old(d.file.trace))
  {
    var l2Cluster, l2Slot, clu := FindSlot(d, Enc(iblk, d.blocksize, d.version));
    v := clu;
    if clu < d.l2Size && l2Cluster >= d.l1Size {
      rc := -1;
    } else if clu >= d.l2Size {
      rc := 0;
    } else {
      BlockOfEnc(d.allocHead, d.blocksize, d.version);
      FitsMono(iblk, d.allocHead, d.blocksize, d.version);
      BlockOfEnc(iblk, d.blocksize, d.version);
      var buf := d.file.ReadCluster(BlockOf(d.l2[l2Slot], d.blocksize, d.version));
      d.l2 := d.l2[l2Slot := Enc(d.allocHead, d.blocksize, d.version)];
      d.allocHead := d.allocHead + 1;
      d.file.Write(WordsAt(BlockOf(d.l2[l2Slot], d.blocksize, d.version), 0, buf));
      d.file.Fsync();
      ghost var d1 := d.file.cur;
      d.file.Write(WordsAt(l2Cluster, l2Slot, [d.l2[l2Slot]]));
      assert d.file.log == [Redirect(d1, v, d.l2[l2Slot])];
      assert d.file.cur.blocks[l2Cluster] == d.l2;
      rc := 1;
    }
  }

  /** Scans the index through the one-cluster cache for the first slot holding `want`; stops early,
      with `l2Cluster >= l1Size`, at a slot that lies outside the index. */
  method FindSlot(d: Delta, want: U32) returns (l2Cluster: nat, l2Slot: nat, clu: nat)
    requires d.Synced()
    modifies d`l2, d`l2Cache
    ensures d.Synced() && clu <= d.l2Size
    ensures l2Cluster < d.l1Size || clu == d.l2Size ==> forall u: nat :: u < clu ==> Slot(d.file.cur, u) != want
    ensures clu < d.l2Size ==>
      l2Cluster == SlotBlock(clu, d.blocksize * 128) && l2Slot == SlotWord(clu, d.blocksize * 128) &&
      (l2Cluster < d.l1Size ==>
        d.l2Cache == l2Cluster && l2Slot < |d.l2| && d.l2[l2Slot] == want && Slot(d.file.cur, clu) == want)
  {
    var n := d.blocksize * 128;
    clu, l2Cluster, l2Slot := 0, 0, 0;
    while clu < d.l2Size
      invariant d.Synced() && clu <= d.l2Size
      invariant forall u: nat :: u < clu ==> Slot(d.file.cur, u) != want
    {
      l2Cluster, l2Slot := SlotBlock(clu, n), SlotWord(clu, n);
      SlotPosition(clu, n);
      if l2Cluster >= d.l1Size { return; }
      if d.l2Cache != l2Cluster {
        d.l2 := d.file.ReadCluster(l2Cluster);
        d.l2Cache := l2Cluster;
      }
      if d.l2[l2Slot] == want { return; }
      clu := clu + 1;
    }
  }

  datatype Status = Ok | Param | Reloc

  /** Every crash shows the old device. */
  ghost predicate ShowsSafe(img0: Img, h1: Header, s: Snap) {
    forall c :: Possible(s, c) ==> ShowsOld(img0, h1, c)
  }

  /** And it keeps the in-use mark if the image had it. */
  ghost predicate SnapSafe(img0: Img, h1: Header, s: Snap) {
    ShowsSafe(img0, h1, s) && (img0.hdr.inUse ==> Guarded(s))
  }

  /** Every step recorded from position `from` on leaves only states that show the old device. */
  ghost predicate TraceSafe(img0: Img, h1: Header, trace: seq<Snap>, from: nat) {
    forall k :: from <= k < |trace| ==> SnapSafe(img0, h1, trace[k])
  }

  lemma QuietSafe(img0: Img, h1: Header, s: Snap)
    requires SameMap(img0, s.dur) && Quiet(s.dur, s.log)
    ensures SnapSafe(img0, h1, s)
  {
    forall c | Possible(s, c) ensures ShowsOld(img0, h1, c) { QuietCrash(img0, h1, s, c); }
  }

  lemma RedirectSafe(img0: Img, h1: Header, s: Snap, v: nat, x: U32)
    requires SameMap(img0, s.dur) && v < s.dur.hdr.L2() && Slot(s.dur, v) != 0
    requires x != 0 && Points(x, s.dur)
    requires var b := BlockOf(x, s.dur.hdr.blocksize, s.dur.hdr.version);
      Unused(s.dur, b) &&
      s.dur.blocks[b] == s.dur.blocks[Target(s.dur, v)]
    requires s.log == [Redirect(s.dur, v, x)]
    ensures SnapSafe(img0, h1, s)
  {
    forall c | Possible(s, c) ensures ShowsOld(img0, h1, c) { RedirectCrash(img0, h1, s, c, v, x); }
  }

  lemma HeaderShows(img0: Img, h1: Header, s: Snap, mid: nat)
    requires Valid(img0) && Larger(img0.hdr, h1) && Cleared(img0, s.dur, mid, mid, h1.L1()) && h1.L1() <= |s.dur.blocks|
    requires forall k :: 0 <= k < |s.log| ==> HeaderWrite(h1, s.log[k])
    ensures ShowsSafe(img0, h1, s)
  {
    forall c | Possible(s, c) ensures ShowsOld(img0, h1, c) { HeaderCrash(img0, h1, s, c, mid); }
  }

  lemma HeaderSafe(img0: Img, h1: Header, s: Snap, mid: nat)
    requires Valid(img0) && Larger(img0.hdr, h1) && Cleared(img0, s.dur, mid, mid, h1.L1()) && h1.L1() <= |s.dur.blocks|
    requires forall k :: 0 <= k < |s.log| ==> HeaderWrite(h1, s.log[k])
    requires img0.hdr.inUse ==> Guarded(s)
    ensures SnapSafe(img0, h1, s)
  {
    HeaderShows(img0, h1, s, mid);
  }

  /** State between two iterations: what is in the file, what is durable and what is pending. */
  ghost predicate Between(img0: Img, f: File, lo: nat, mid: nat, hi: nat)
    reads f
  {
    && Cleared(img0, f.cur, lo, mid, hi)
    && SameMap(img0, f.dur) && Quiet(f.dur, f.log) && |f.dur.blocks| <= |f.cur.blocks|
  }

  /** Highest file cluster the new layout can need. */
  function PeakBlocks(img: Img, h: Header): nat {
    var start := if |img.blocks| < h.L1() then h.L1() else |img.blocks|;
    if h.L1() <= img.hdr.L1() then start else start + h.L1() - img.hdr.L1()
  }

  lemma NobodyUses(d: Img, i: nat)
    requires d.hdr.blocksize > 0 && i >= d.hdr.L1()
    requires forall u: nat :: u < d.hdr.L2() ==> Slot(d, u) != Enc(i, d.hdr.blocksize, d.hdr.version)
    requires forall v: nat :: v < d.hdr.L2() && Slot(d, v) != 0 ==> Points(Slot(d, v), d)
    ensures Unused(d, i)
  {
    forall v: nat | v < d.hdr.L2() && Slot(d, v) != 0 ensures Target(d, v) != i {
      EncBlockOf(Slot(d, v), d.hdr.blocksize, d.hdr.version);
    }
  }

  /** Relocation of cluster `i`, referred to by slot `v`: its three steps are safe and free the cluster. */
  lemma Relocation(img0: Img, h1: Header, s0: Snap, d0: Img, i: nat, mid: nat, hi: nat, v: nat, t: seq<Snap>)
    requires Cleared(img0, d0, i, mid, hi) && 0 < i < mid && Fits(|d0.blocks|, d0.hdr.blocksize, d0.hdr.version)
    requires SameMap(img0, s0.dur) && Quiet(s0.dur, s0.log) && |s0.dur.blocks| <= |d0.blocks|
    requires v < d0.hdr.L2() && Slot(d0, v) == Enc(i, d0.hdr.blocksize, d0.hdr.version)
    ensures TraceSafe(img0, h1, RelocationTrace(s0, d0, i, v, t), |t|)
    ensures var x, d1 := Enc(|d0.blocks|, d0.hdr.blocksize, d0.hdr.version), Apply(d0, AppendCopy(d0, i));
      && Fitting(d1, Redirect(d1, v, x))
      && Cleared(img0, Apply(d1, Redirect(d1, v, x)), i, mid, hi) && Unused(Apply(d1, Redirect(d1, v, x)), i)
  {
    var bs, ver := d0.hdr.blocksize, d0.hdr.version;
    var w, x := AppendCopy(d0, i), Enc(|d0.blocks|, bs, ver);
    var d1 := Apply(d0, w);
    BlockOfEnc(|d0.blocks|, bs, ver);
    FitsMono(i, |d0.blocks|, bs, ver);
    BlockOfEnc(i, bs, ver);
    AppendStep(img0, d0, w, i, mid, hi);
    QuietSafe(img0, h1, Snap(s0.dur, s0.log + [w]));
    QuietSafe(img0, h1, Snap(d1, []));
    RedirectSafe(img0, h1, Snap(d1, [Redirect(d1, v, x)]), v, x);
    RedirectStep(img0, d1, v, i, mid, hi, x);
  }

  /** Once cluster `i` is unused: make that durable, then zero the cluster. */
  method ZeroCluster(d: Delta, i: nat, ghost img0: Img, ghost h1: Header, ghost mid: nat, ghost hi: nat)
    requires d.Synced() && Cleared(img0, d.file.cur, i, mid, hi) && i < mid && Unused(d.file.cur, i)
    modifies d.file
    ensures d.Synced() && Between(img0, d.file, i + 1, mid, hi)
    ensures old(d.file.trace) <= d.file.trace && TraceSafe(img0, h1, d.file.trace, |old(d.file.trace)|)
  {
    ghost var d2 := d.file.cur;
    d.file.Fsync();
    ZeroStep(img0, d2, i, mid, hi);
    d.file.Write(WordsAt(i, 0, Zeros(d.blocksize * 128)));
    QuietSafe(img0, h1, Snap(d2, []));
    QuietSafe(img0, h1, Snap(d2, d.file.log));
  }

  /** One iteration of the relocation loop: free cluster `i` and zero it. */
  method FreeCluster(d: Delta, i: nat, ghost img0: Img, ghost h1: Header, ghost mid: nat, ghost hi: nat)
    returns (rc: int)
    requires d.Synced() && Between(img0, d.file, i, mid, hi) && 0 < i < mid
    requires Fits(d.allocHead, d.blocksize, d.version)
    modifies d, d.file
    ensures d.Synced() && Between(img0, d.file, i + 1, mid, hi) && rc >= 0
    ensures d.l1Size == old(d.l1Size) && d.l2Size == old(d.l2Size)
    ensures old(d.allocHead) <= d.allocHead <= old(d.allocHead) + 1
    ensures old(d.file.trace) <= d.file.trace && TraceSafe(img0, h1, d.file.trace, |old(d.file.trace)|)
  {
    ghost var s0, d0, t0 := Snap(d.file.dur, d.file.log), d.file.cur, d.file.trace;
    ghost var v;
    rc, v := RelocateBlock(d, i);
    if rc == 1 {
      Relocation(img0, h1, s0, d0, i, mid, hi, v, t0);
    } else {
      assert rc == 0 by { assert SlotBlock(v, d0.hdr.Words()) < d0.hdr.L1() || v >= d0.hdr.L2(); }
      NobodyUses(d0, i);
    }
    assert Cleared(img0, d.file.cur, i, mid, hi) && Unused(d.file.cur, i);
    ghost var t1 := d.file.trace;
    ZeroCluster(d, i, img0, h1, mid, hi);
    assert forall k :: |t0| <= k < |t1| ==> d.file.trace[k] == t1[k];
  }

  /** File size in bytes divided by the blocksize in sectors. */
  function SizeOverSectors(blocks: nat): nat { blocks * SECTOR_SIZE }

  /** The flags `grow_delta` gives a file of `blocks` clusters. */
  function EmptyFlags(blocks: nat, firstBlock: nat): nat {
    if SizeOverSectors(blocks) <= firstBlock then CIF_EMPTY else 0
  }

  lemma InitiallyCleared(img0: Img, mid: nat)
    requires Valid(img0) && img0.hdr.L1() <= mid <= |img0.blocks|
    ensures Cleared(img0, img0, img0.hdr.L1(), mid, mid)
  {
  }

  lemma GapStep(img0: Img, h1: Header, d: Img, log: seq<Write>)
    requires Valid(img0) && Cleared(img0, d, img0.hdr.L1(), |img0.blocks|, |d.blocks|) && Quiet(img0, log)
    ensures var w := WordsAt(|d.blocks|, 0, Zeros(d.hdr.Words()));
      && Fitting(d, w) && Cleared(img0, Apply(d, w), img0.hdr.L1(), |img0.blocks|, |d.blocks| + 1)
      && Quiet(img0, log + [w]) && SnapSafe(img0, h1, Snap(img0, log + [w]))
  {
    var w := WordsAt(|d.blocks|, 0, Zeros(d.hdr.Words()));
    AppendStep(img0, d, w, img0.hdr.L1(), |img0.blocks|, |d.blocks|);
    QuietSafe(img0, h1, Snap(img0, log + [w]));
  }

  /** Appends zero clusters until the file covers the new index. */
  method FillGap(d: Delta, hi: nat, ghost img0: Img, ghost h1: Header)
    requires d.Synced() && d.file.cur == d.file.dur == img0 && d.file.log == [] && Valid(img0) && d.allocHead <= hi
    modifies d, d.file
    ensures d.Synced() && Between(img0, d.file, img0.hdr.L1(), |img0.blocks|, hi) && d.allocHead == hi
    ensures d.l2Cache == old(d.l2Cache)
    ensures old(d.file.trace) <= d.file.trace && TraceSafe(img0, h1, d.file.trace, |old(d.file.trace)|)
  {
    var n := d.blocksize * 128;
    InitiallyCleared(img0, d.allocHead);
    while d.allocHead < hi
      invariant d.allocHead <= hi && d.Synced() && d.l2Cache == old(d.l2Cache)
      invariant Between(img0, d.file, img0.hdr.L1(), |img0.blocks|, d.allocHead) && d.file.dur == img0
      invariant old(d.file.trace) <= d.file.trace && TraceSafe(img0, h1, d.file.trace, |old(d.file.trace)|)
      decreases hi - d.allocHead
    {
      GapStep(img0, h1, d.file.cur, d.file.log);
      d.file.Write(WordsAt(d.allocHead, 0, Zeros(n)));
      d.allocHead := d.allocHead + 1;
    }
  }

  /** Everything up to the end of the new index is cleared: the header may change. */
  ghost predicate GrownOver(img0: Img, h: Header, d: Img) {
    Cleared(img0, d, h.L1(), h.L1(), h.L1())
  }

  /** Clears the clusters from the old to the new end of the index. */
  method ClearRegion(d: Delta, h: Header) returns (rc: int)
    requires d.Synced() && d.file.cur == d.file.dur && d.file.log == [] && Valid(d.file.cur)
    requires Larger(d.file.cur.hdr, h) && Fits(PeakBlocks(d.file.cur, h), d.blocksize, d.version)
    modifies d, d.file
    ensures d.Synced() && rc >= 0 && d.l1Size == old(d.l1Size) && |d.file.cur.blocks| <= PeakBlocks(old(d.file.cur), h)
    ensures GrownOver(old(d.file.cur), h, d.file.cur)
    ensures SameMap(old(d.file.cur), d.file.dur) && Quiet(d.file.dur, d.file.log)
    ensures old(d.file.trace) <= d.file.trace && TraceSafe(old(d.file.cur), h, d.file.trace, |old(d.file.trace)|)
  {
    var l1, syncAlloc := h.L1(), 0;
    ghost var img0 := d.file.cur;
    ghost var mid := l1;
    if d.allocHead < l1 {
      syncAlloc := l1 - d.allocHead;
      mid := d.allocHead;
      FillGap(d, l1, img0, h);
    } else {
      InitiallyCleared(img0, l1);
    }
    rc := 0;
    var i := d.l1Size;
    while i < l1 - syncAlloc
      invariant d.l1Size == img0.hdr.L1() <= i <= mid == l1 - syncAlloc
      invariant d.Synced() && Between(img0, d.file, i, mid, l1) && rc >= 0
      invariant d.allocHead <= PeakBlocks(img0, h) - mid + i
      invariant old(d.file.trace) <= d.file.trace && TraceSafe(img0, h, d.file.trace, |old(d.file.trace)|)
    {
      FitsMono(d.allocHead, PeakBlocks(img0, h), d.blocksize, d.version);
      rc := FreeCluster(d, i, img0, h, mid, l1);
      i := i + 1;
    }
  }

  /** `grow_delta` with no reloc map, for a delta whose handle has not cached an index cluster yet.
      Whatever the moment of a crash, the old device can be read; afterwards the new one can. */
  method GrowDelta(d: Delta, bdsize: nat) returns (st: Status)
    requires d.Synced() && d.file.cur == d.file.dur && d.file.log == [] && Valid(d.file.cur)
    requires var h := GeneratePvdHeader(bdsize, d.blocksize, d.version);
      Larger(d.file.cur.hdr, h) && Fits(PeakBlocks(d.file.cur, h), d.blocksize, d.version)
    modifies d, d.file
    ensures st == if old(d.l2Cache) >= 0 then Param else Ok
    ensures st == Param ==> unchanged(d, d.file)
    ensures st == Ok ==> Grown(old(d.file.cur), GeneratePvdHeader(bdsize, d.blocksize, d.version), d, old(d.file.trace))
    ensures st == Ok ==> d.file.cur.hdr.flags == EmptyFlags(|d.file.cur.blocks|, d.file.cur.hdr.firstBlock)
  {
    var h := GeneratePvdHeader(bdsize, d.blocksize, d.version);
    if d.allocHead < d.l1Size || d.l2Cache >= 0 {
      return Param;
    }
    ghost var img0 := d.file.cur;
    var rc := ClearRegion(d, h);
    WriteHeader(d, h, img0);
    st := Ok;
  }

  /** The result of growing: a valid image under the new header, all of it durable but the header itself. */
  ghost predicate Grown(img0: Img, h: Header, d: Delta, before: seq<Snap>)
    reads d, d.file
  {
    && d.Synced() && Valid(d.file.cur) && d.file.cur.hdr.SameLayout(h) && d.file.cur.hdr.inUse
    && ShowsOld(img0, h, d.file.cur)
    && d.file.log == [HeaderAt(d.file.cur.hdr)] && d.file.cur.blocks == d.file.dur.blocks
    && GrownOver(img0, h, d.file.dur)
    && |d.file.cur.blocks| <= PeakBlocks(img0, h)
    && before <= d.file.trace && TraceSafe(img0, h, d.file.trace, |before|)
  }

  lemma ClearedImage(img0: Img, h: Header, d: Img, h': Header)
    requires Valid(img0) && Larger(img0.hdr, h) && GrownOver(img0, h, d) && h'.SameLayout(h)
    ensures Valid(d.(hdr := h')) && ShowsOld(img0, h, d.(hdr := h'))
  {
    assert h'.L1() == h.L1() && h'.L2() == h.L2() && h'.Words() == h.Words();
    assert IndexCovers(h');
    GrownImage(img0, d, h.L1(), h');
    GrownImage(img0, d, h.L1(), h);
  }

  lemma HeaderStep(img0: Img, h: Header, d: Img, h': Header)
    requires Valid(img0) && Larger(img0.hdr, h) && GrownOver(img0, h, d) && h'.SameLayout(h)
    requires img0.hdr.inUse ==> h'.inUse
    ensures SnapSafe(img0, h, Snap(d, [])) && SnapSafe(img0, h, Snap(d, [HeaderAt(h')]))
    ensures Valid(d.(hdr := h')) && ShowsOld(img0, h, d.(hdr := h'))
  {
    HeaderSafe(img0, h, Snap(d, []), h.L1());
    HeaderSafe(img0, h, Snap(d, [HeaderAt(h')]), h.L1());
    ClearedImage(img0, h, d, h');
  }

  method WriteHeader(d: Delta, h: Header, ghost img0: Img)
    requires d.Synced() && Valid(img0) && Larger(img0.hdr, h) && GrownOver(img0, h, d.file.cur)
    requires |d.file.cur.blocks| <= PeakBlocks(img0, h)
    modifies d, d.file
    ensures Grown(img0, h, d, old(d.file.trace))
    ensures d.file.cur.hdr.flags == EmptyFlags(|d.file.cur.blocks|, d.file.cur.hdr.firstBlock)
  {
    d.file.Fsync();
    var flags := EmptyFlags(|d.file.cur.blocks|, h.firstBlock);
    var h' := h.(inUse := true, flags := flags);
    HeaderStep(img0, h, d.file.cur, h');
    d.file.Write(HeaderAt(h'));
    d.l1Size := h.L1();
    d.l2Size := h.L2();
  }
}
