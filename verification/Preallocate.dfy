/** Conversion to a preallocated image: every virtual cluster gets a cluster of the file. */
module Preallocate {
  import opened Image
  import opened Disk
  import opened DeltaFile
  import opened Stack
  import opened Merge
  import Grow

  /** How many of the first `n` clusters have none. */
  function Holes(img: Img, n: nat): (r: nat)
    requires img.hdr.blocksize > 0
    ensures r == 0 <==> forall v: nat :: v < n ==> Slot(img, v) != 0
  {
    if n == 0 then 0 else Holes(img, n - 1) + if Slot(img, n - 1) == 0 then 1 else 0
  }

  lemma HolesMono(img: Img, m: nat, n: nat)
    requires img.hdr.blocksize > 0 && m <= n
    ensures Holes(img, m) <= Holes(img, n)
    decreases n - m
  {
    if m < n { HolesMono(img, m + 1, n); }
  }

  /** Clusters below `clu` that had no block hold zeros; all others read as before. */
  ghost predicate FilledTo(img0: Img, d: Img, clu: nat) {
    && Valid(d) && d.hdr == img0.hdr && |d.blocks| == |img0.blocks| + Holes(img0, clu)
    && forall v: nat :: v < d.hdr.L2() ==>
         Read(d, v) == if v < clu && Slot(img0, v) == 0 then Data(Grow.Zeros(d.hdr.Words())) else Read(img0, v)
  }

  lemma SlotStays(img0: Img, d: Img, clu: nat)
    requires Valid(img0) && FilledTo(img0, d, clu) && clu < d.hdr.L2()
    ensures Slot(d, clu) == 0 <==> Slot(img0, clu) == 0
  {
    assert Read(d, clu) == Read(img0, clu);
  }

  lemma FillStep(img0: Img, d: Img, clu: nat)
    requires Valid(img0) && FilledTo(img0, d, clu) && clu < d.hdr.L2()
    requires Fits(|d.blocks|, d.hdr.blocksize, d.hdr.version)
    ensures FilledTo(img0, if Slot(d, clu) == 0 then Store(d, clu, Grow.Zeros(d.hdr.Words())) else d, clu + 1)
  {
    var z := Grow.Zeros(d.hdr.Words());
    SlotStays(img0, d, clu);
    if Slot(d, clu) == 0 {
      StoreReads(d, clu, z);
      SlotPosition(clu, d.hdr.Words());
    }
  }

  // ---------- crashes ----------

  /** A word write that leaves the data and the index entry of every allocated cluster alone. */
  ghost predicate Careful(img0: Img, w: Write)
    requires img0.hdr.blocksize > 0
  {
    && w.WordsAt? && (w.block < img0.hdr.L1() || w.block >= |img0.blocks|)
    && forall v: nat :: v < img0.hdr.L2() && Slot(img0, v) != 0 && w.block == SlotBlock(v, img0.hdr.Words()) ==>
         !(w.word <= SlotWord(v, img0.hdr.Words()) < w.word + |w.words|)
  }

  /** Every allocated cluster reads as before. */
  ghost predicate AllocatedKept(img0: Img, c: Img) {
    forall v: nat :: v < img0.hdr.L2() && Slot(img0, v) != 0 ==> Read(c, v) == Read(img0, v)
  }

  lemma CarefulCrash(img0: Img, log: seq<Write>, c: Img)
    requires Valid(img0) && (forall k :: 0 <= k < |log| ==> Careful(img0, log[k])) && Possible(Snap(img0, log), c)
    ensures AllocatedKept(img0, c)
  {
    var s, n := Snap(img0, log), img0.hdr.Words();
    assert c.hdr == img0.hdr;
    forall v: nat | v < img0.hdr.L2() && Slot(img0, v) != 0 ensures Read(c, v) == Read(img0, v) {
      SlotPosition(v, n);
      WordKept(s, c, SlotBlock(v, n), SlotWord(v, n));
      Untouched(s, c, Target(img0, v));
    }
  }

  ghost predicate AlwaysKept(img0: Img, trace: seq<Snap>, from: nat) {
    forall k, c :: from <= k < |trace| && Possible(trace[k], c) ==> AllocatedKept(img0, c)
  }

  /** The same device, with zeros where there was nothing. */
  ghost predicate SameOrZero(img0: Img, c: Img) {
    forall v: nat :: v < img0.hdr.L2() ==>
      Read(c, v) == Read(img0, v) || (Read(img0, v) == Hole && Read(c, v) == Data(Grow.Zeros(img0.hdr.Words())))
  }

  ghost predicate AlwaysSame(img0: Img, trace: seq<Snap>, from: nat) {
    forall k, c :: from <= k < |trace| && Possible(trace[k], c) ==> SameOrZero(img0, c)
  }

  function AppendZeros(img: Img): Write { WordsAt(|img.blocks|, 0, Grow.Zeros(img.hdr.Words())) }

  function SetEntry(img: Img, v: nat): Write
    requires img.hdr.blocksize > 0
  {
    var x: U32 := Enc(|img.blocks|, img.hdr.blocksize, img.hdr.version);
    WordsAt(SlotBlock(v, img.hdr.Words()), SlotWord(v, img.hdr.Words()), [x])
  }

  /** The entry on the disk before the cluster it names: the file may end before that cluster. */
  lemma TornFill(img: Img, v: nat) returns (c: Img)
    requires Valid(img) && v < img.hdr.L2() && Slot(img, v) == 0
    requires Fits(|img.blocks|, img.hdr.blocksize, img.hdr.version)
    ensures Possible(Snap(img, [AppendZeros(img), SetEntry(img, v)]), c) && Read(img, v) == Hole && Read(c, v) == Broken
  {
    var log, w := [AppendZeros(img), SetEntry(img, v)], SetEntry(img, v);
    SlotPosition(v, img.hdr.Words());
    BlockOfEnc(|img.blocks|, img.hdr.blocksize, img.hdr.version);
    c := Apply(img, w);
    assert Slot(c, v) == w.words[0];
    forall b, o | 0 <= b < |img.blocks| && 0 <= o < |c.blocks[b]|
      ensures c.blocks[b][o] == img.blocks[b][o] || Puts(log[1], b, o, c.blocks[b][o])
    {
    }
  }

  /** The steps of one cluster: zeros at the end of the file, then the entry, nothing in between. */
  lemma FillWrites(img0: Img, d: Img, clu: nat)
    requires Valid(img0) && FilledTo(img0, d, clu) && clu < d.hdr.L2() && Slot(d, clu) == 0
    ensures Fitting(d, AppendZeros(d)) && Fitting(Apply(d, AppendZeros(d)), SetEntry(d, clu))
    ensures Apply(Apply(d, AppendZeros(d)), SetEntry(d, clu)) == Store(d, clu, Grow.Zeros(d.hdr.Words()))
    ensures Careful(img0, AppendZeros(d)) && Careful(img0, SetEntry(d, clu))
  {
    var n := d.hdr.Words();
    SlotStays(img0, d, clu);
    SlotPosition(clu, n);
    var a, st := Apply(Apply(d, AppendZeros(d)), SetEntry(d, clu)), Store(d, clu, Grow.Zeros(n));
    assert a.blocks[SlotBlock(clu, n)] == st.blocks[SlotBlock(clu, n)];
    assert a.blocks == st.blocks;
    forall v: nat | v < img0.hdr.L2() && Slot(img0, v) != 0 && SlotBlock(clu, n) == SlotBlock(v, n)
      ensures SlotWord(clu, n) != SlotWord(v, n)
    {
      if SlotWord(clu, n) == SlotWord(v, n) { SlotDistinct(clu, v, n); }
    }
  }

  // ---------- the loop, on values ----------

  /** The file, its durable contents, what is pending, and what was recorded. */
  datatype FileState = FileState(cur: Img, dur: Img, log: seq<Write>, trace: seq<Snap>)

  function AfterWrite(s: FileState, w: Write): FileState
    requires Fitting(s.cur, w)
  {
    FileState(Apply(s.cur, w), s.dur, s.log + [w], s.trace + [Snap(s.dur, s.log + [w])])
  }

  /** The next file cluster has an entry, and cluster `clu` has one in the index. */
  ghost predicate CanFill(s: FileState, clu: nat) {
    && WellSized(s.cur) && clu < s.cur.hdr.L2() && SlotBlock(clu, s.cur.hdr.Words()) < s.cur.hdr.L1() <= |s.cur.blocks|
    && Fits(|s.cur.blocks|, s.cur.hdr.blocksize, s.cur.hdr.version)
  }

  /** Zeros at the end of the file, then the entry, and no sync in between. */
  ghost function Next(s: FileState, clu: nat): FileState
    requires CanFill(s, clu)
  {
    SlotPosition(clu, s.cur.hdr.Words());
    if Slot(s.cur, clu) == 0 then AfterWrite(AfterWrite(s, AppendZeros(s.cur)), SetEntry(s.cur, clu)) else s
  }

  ghost predicate FirstFill(img0: Img, s: Snap)
    requires img0.hdr.blocksize > 0
  {
    exists v: nat :: v < img0.hdr.L2() && Slot(img0, v) == 0 && s == Snap(img0, [AppendZeros(img0), SetEntry(img0, v)])
  }

  /** Nothing was written, or first of all the zeros and the entry of one cluster. */
  ghost predicate Recorded(img0: Img, before: seq<Snap>, s: FileState, holes: nat)
    requires img0.hdr.blocksize > 0
  {
    && before <= s.trace
    && (holes == 0 ==> s == FileState(img0, img0, [], before))
    && (holes > 0 ==> |s.trace| >= |before| + 2 && FirstFill(img0, s.trace[|before| + 1]))
  }

  ghost predicate Written(img0: Img, before: seq<Snap>, s: FileState)
    requires img0.hdr.blocksize > 0
  {
    && s.dur == img0 && (forall k :: 0 <= k < |s.log| ==> Careful(img0, s.log[k]))
    && AlwaysKept(img0, s.trace, |before|)
  }

  ghost predicate Filling(img0: Img, before: seq<Snap>, s: FileState, clu: nat) {
    && Valid(img0) && Fits(|img0.blocks| + Holes(img0, img0.hdr.L2()), img0.hdr.blocksize, img0.hdr.version)
    && clu <= img0.hdr.L2() && FilledTo(img0, s.cur, clu) && Written(img0, before, s)
    && Recorded(img0, before, s, Holes(img0, clu))
  }

  lemma RoomLeft(img0: Img, clu: nat)
    requires img0.hdr.blocksize > 0
    requires Fits(|img0.blocks| + Holes(img0, img0.hdr.L2()), img0.hdr.blocksize, img0.hdr.version)
    ensures clu <= img0.hdr.L2() ==> Fits(|img0.blocks| + Holes(img0, clu), img0.hdr.blocksize, img0.hdr.version)
  {
    if clu <= img0.hdr.L2() {
      HolesMono(img0, clu, img0.hdr.L2());
      FitsMono(|img0.blocks| + Holes(img0, clu), |img0.blocks| + Holes(img0, img0.hdr.L2()), img0.hdr.blocksize,
        img0.hdr.version);
    }
  }

  lemma WriteKept(img0: Img, before: seq<Snap>, s: FileState, w: Write)
    requires Valid(img0) && Written(img0, before, s) && |before| <= |s.trace| && Fitting(s.cur, w) && Careful(img0, w)
    ensures Written(img0, before, AfterWrite(s, w))
  {
    var log := s.log + [w];
    forall c | Possible(Snap(img0, log), c) ensures AllocatedKept(img0, c) { CarefulCrash(img0, log, c); }
  }

  lemma NextWritten(img0: Img, before: seq<Snap>, s: FileState, clu: nat)
    requires Valid(img0) && FilledTo(img0, s.cur, clu) && Written(img0, before, s) && |before| <= |s.trace|
    requires CanFill(s, clu)
    ensures Written(img0, before, Next(s, clu)) && FilledTo(img0, Next(s, clu).cur, clu + 1)
  {
    FillStep(img0, s.cur, clu);
    if Slot(s.cur, clu) == 0 {
      FillWrites(img0, s.cur, clu);
      WriteKept(img0, before, s, AppendZeros(s.cur));
      WriteKept(img0, before, AfterWrite(s, AppendZeros(s.cur)), SetEntry(s.cur, clu));
    }
  }

  lemma NextRecorded(img0: Img, before: seq<Snap>, s: FileState, clu: nat)
    requires CanFill(s, clu) && img0.hdr == s.cur.hdr && (Slot(s.cur, clu) == 0 <==> Slot(img0, clu) == 0)
    requires Recorded(img0, before, s, Holes(img0, clu))
    ensures Recorded(img0, before, Next(s, clu), Holes(img0, clu + 1))
  {
    var s' := Next(s, clu);
    if Slot(s.cur, clu) == 0 && Holes(img0, clu) == 0 {
      assert s'.trace[|before| + 1] == Snap(img0, [AppendZeros(img0), SetEntry(img0, clu)]);
    }
  }

  lemma FillingNext(img0: Img, before: seq<Snap>, s: FileState, clu: nat)
    requires Filling(img0, before, s, clu) && clu < img0.hdr.L2()
    ensures CanFill(s, clu) && Filling(img0, before, Next(s, clu), clu + 1)
  {
    RoomLeft(img0, clu);
    assert CanFill(s, clu);
    SlotStays(img0, s.cur, clu);
    NextWritten(img0, before, s, clu);
    NextRecorded(img0, before, s, clu);
  }

  // ---------- the loop ----------

  /** The handle as the loop uses it: sizes and cached index cluster agree with the file. */
  ghost predicate Reading(d: Delta)
    reads d, d.file
  {
    var f := d.file.cur;
    && WellSized(f) && d.blocksize == f.hdr.blocksize && d.version == f.hdr.version
    && d.l1Size == f.hdr.L1() && d.l2Size == f.hdr.L2() && -1 <= d.l2Cache < d.l1Size <= |f.blocks|
    && (d.l2Cache >= 0 ==> d.l2 == f.blocks[d.l2Cache])
  }

  ghost function StateOf(f: File): FileState
    reads f
  {
    FileState(f.cur, f.dur, f.log, f.trace)
  }

  /** Gives cluster `clu` the file cluster `dataOff` if it has none. */
  method FillSlot(d: Delta, clu: nat, dataOff: nat) returns (next: nat)
    requires Reading(d) && CanFill(StateOf(d.file), clu) && dataOff == |d.file.cur.blocks|
    modifies d, d.file
    ensures Reading(d) && d.l2Size == old(d.l2Size) && next == |d.file.cur.blocks|
    ensures StateOf(d.file) == Next(old(StateOf(d.file)), clu)
  {
    var l2Cluster, l2Slot := SlotBlock(clu, d.blocksize * 128), SlotWord(clu, d.blocksize * 128);
    SlotPosition(clu, d.blocksize * 128);
    if d.l2Cache != l2Cluster {
      d.l2 := d.file.ReadCluster(l2Cluster);
      d.l2Cache := l2Cluster;
    }
    next := dataOff;
    if d.l2[l2Slot] == 0 {
      d.l2 := d.l2[..l2Slot] + [Enc(dataOff, d.blocksize, d.version)] + d.l2[l2Slot + 1..];
      d.file.Write(WordsAt(dataOff, 0, Grow.Zeros(d.blocksize * 128)));
      d.file.Write(WordsAt(l2Cluster, l2Slot, [d.l2[l2Slot]]));
      assert d.file.cur.blocks[l2Cluster] == d.l2;
      next := dataOff + 1;
    }
  }

  method FillLoop(d: Delta, ghost inv: (FileState, nat) -> bool) returns (dataOff: nat)
    requires Reading(d) && d.allocHead == |d.file.cur.blocks| && inv(StateOf(d.file), 0)
    requires forall s, clu {:trigger Steps(inv, s, clu)} :: Steps(inv, s, clu)
    modifies d, d.file
    ensures inv(StateOf(d.file), d.l2Size) && d.l2Size == old(d.l2Size)
  {
    var clu := 0;
    dataOff := d.allocHead;
    while clu < d.l2Size
      invariant clu <= d.l2Size == old(d.l2Size) && Reading(d) && dataOff == |d.file.cur.blocks|
      invariant inv(StateOf(d.file), clu)
    {
      assert Steps(inv, StateOf(d.file), clu);
      dataOff := FillSlot(d, clu, dataOff);
      clu := clu + 1;
    }
  }

  /** `inv` survives cluster `clu`. */
  ghost predicate Steps(inv: (FileState, nat) -> bool, s: FileState, clu: nat) {
    inv(s, clu) && clu < s.cur.hdr.L2() ==> CanFill(s, clu) && inv(Next(s, clu), clu + 1)
  }

  lemma FillingInvariant(img0: Img, before: seq<Snap>) returns (inv: (FileState, nat) -> bool)
    ensures forall s, clu {:trigger Steps(inv, s, clu)} :: Steps(inv, s, clu)
    ensures forall s, clu {:trigger Filling(img0, before, s, clu)} :: inv(s, clu) == Filling(img0, before, s, clu)
  {
    inv := (s: FileState, clu: nat) => Filling(img0, before, s, clu);
    forall s: FileState, clu: nat ensures Steps(inv, s, clu) { FillingSteps(img0, before, inv, s, clu); }
  }

  lemma FillingSteps(img0: Img, before: seq<Snap>, inv: (FileState, nat) -> bool, s: FileState, clu: nat)
    requires forall s, clu {:trigger Filling(img0, before, s, clu)} :: inv(s, clu) == Filling(img0, before, s, clu)
    ensures Steps(inv, s, clu)
  {
    assert inv(s, clu) == Filling(img0, before, s, clu);
    if inv(s, clu) && clu < s.cur.hdr.L2() {
      FillingNext(img0, before, s, clu);
      assert Filling(img0, before, Next(s, clu), clu + 1);
    }
  }

  lemma StartFilling(img0: Img, before: seq<Snap>)
    requires Valid(img0) && Fits(|img0.blocks| + Holes(img0, img0.hdr.L2()), img0.hdr.blocksize, img0.hdr.version)
    ensures Filling(img0, before, FileState(img0, img0, [], before), 0)
  {
  }

  // ---------- the end ----------

  lemma SyncedKeeps(img0: Img, d: Img, c: Img)
    requires Valid(img0) && FilledTo(img0, d, img0.hdr.L2()) && Possible(Snap(d, []), c)
    ensures AllocatedKept(img0, c) && SameOrZero(img0, c)
  {
    SyncedCrash(d, c);
    forall v: nat | v < img0.hdr.L2() ensures Read(c, v) == Read(d, v) { Grow.ReadExtended(d, c, v); }
  }

  lemma AllFilled(img0: Img, d: Img)
    requires Valid(img0) && FilledTo(img0, d, img0.hdr.L2())
    ensures Holes(d, img0.hdr.L2()) == 0
  {
    forall v: nat | v < img0.hdr.L2() ensures Slot(d, v) != 0 {
      assert Read(d, v) != Hole;
    }
  }

  /** A run that wrote something passed a state a crash may tear. */
  lemma Torn(img0: Img, trace: seq<Snap>, from: nat)
    requires Valid(img0) && from + 1 < |trace| && FirstFill(img0, trace[from + 1])
    requires Fits(|img0.blocks|, img0.hdr.blocksize, img0.hdr.version)
    ensures !AlwaysSame(img0, trace, from)
  {
    var v: nat :| v < img0.hdr.L2() && Slot(img0, v) == 0 &&
      trace[from + 1] == Snap(img0, [AppendZeros(img0), SetEntry(img0, v)]);
    var c := TornFill(img0, v);
    assert Possible(trace[from + 1], c) && !SameOrZero(img0, c);
  }

  /** The last sync. */
  lemma SyncKeeps(img0: Img, d: Img, trace: seq<Snap>, from: nat)
    requires Valid(img0) && FilledTo(img0, d, img0.hdr.L2()) && from <= |trace| && AlwaysKept(img0, trace, from)
    ensures AlwaysKept(img0, trace + [Snap(d, [])], from)
    ensures from == |trace| ==> AlwaysSame(img0, trace + [Snap(d, [])], from)
  {
    forall c | Possible(Snap(d, []), c) ensures AllocatedKept(img0, c) && SameOrZero(img0, c) {
      SyncedKeeps(img0, d, c);
    }
  }

  /** The whole run, last sync included. */
  lemma Finished(img0: Img, before: seq<Snap>, s: FileState)
    requires Filling(img0, before, s, img0.hdr.L2())
    ensures FilledTo(img0, s.cur, img0.hdr.L2()) && Holes(s.cur, img0.hdr.L2()) == 0 && before <= s.trace
    ensures AlwaysKept(img0, s.trace + [Snap(s.cur, [])], |before|)
    ensures AlwaysSame(img0, s.trace + [Snap(s.cur, [])], |before|) <==> Holes(img0, img0.hdr.L2()) == 0
  {
    AllFilled(img0, s.cur);
    SyncKeeps(img0, s.cur, s.trace, |before|);
    if Holes(img0, img0.hdr.L2()) > 0 {
      RoomLeft(img0, 0);
      Torn(img0, s.trace + [Snap(s.cur, [])], |before|);
    }
  }

  /** `expanded2preallocated`. Every cluster gets a block; those that had none read as zeros, the others as
      before, and at every crash as well. But the entry is not held back until its cluster is there: crashes
      leave the device as it was exactly if there was nothing to do. */
  method PreallocateImage(d: Delta)
    requires d.Synced() && Valid(d.file.cur) && d.file.cur == d.file.dur && d.file.log == []
    requires Fits(d.allocHead + Holes(d.file.cur, d.l2Size), d.blocksize, d.version)
    modifies d, d.file
    ensures FilledTo(old(d.file.cur), d.file.cur, old(d.l2Size)) && Holes(d.file.cur, old(d.l2Size)) == 0
    ensures d.file.cur == d.file.dur && d.file.log == [] && old(d.file.trace) <= d.file.trace
    ensures AlwaysKept(old(d.file.cur), d.file.trace, |old(d.file.trace)|)
    ensures AlwaysSame(old(d.file.cur), d.file.trace, |old(d.file.trace)|) <==>
      Holes(old(d.file.cur), old(d.l2Size)) == 0
  {
    ghost var img0, before := d.file.cur, d.file.trace;
    ghost var inv := FillingInvariant(img0, before);
    StartFilling(img0, before);
    var dataOff := FillLoop(d, inv);
    assert Filling(img0, before, StateOf(d.file), d.l2Size);
    Finished(img0, before, StateOf(d.file));
    d.file.Fsync();
  }

  // ---------- on top of other deltas ----------

  /** What a cluster shows; nothing shows as zeros. */
  function Shown(l: Lookup, n: nat): Block { if l.Data? then l.block else Grow.Zeros(n) }

  ghost predicate ShowsSame(a: seq<Img>, b: seq<Img>, size: nat, n: nat) {
    forall v: nat :: v < size ==> Shown(StackRead(a, v), n) == Shown(StackRead(b, v), n)
  }

  lemma ShownOnTop(img0: Img, d: Img, below: seq<Img>, v: nat)
    requires Valid(img0) && FilledTo(img0, d, img0.hdr.L2()) && v < img0.hdr.L2()
    ensures var n := img0.hdr.Words();
      StackRead([d] + below, v) == if Slot(img0, v) == 0 then Data(Grow.Zeros(n)) else StackRead([img0] + below, v)
    ensures Slot(img0, v) == 0 ==> StackRead([img0] + below, v) == StackRead(below, v)
  {
    assert ([d] + below)[1..] == below && ([img0] + below)[1..] == below;
    assert Read(d, v) == if Slot(img0, v) == 0 then Data(Grow.Zeros(d.hdr.Words())) else Read(img0, v);
  }

  /** The conversion is not kept off deltas with others below them. There it shows the same exactly if the others
      have nothing but zeros wherever the delta had nothing. */
  lemma HidesBelow(img0: Img, d: Img, below: seq<Img>)
    requires Valid(img0) && FilledTo(img0, d, img0.hdr.L2())
    ensures var n := img0.hdr.Words();
      ShowsSame([d] + below, [img0] + below, img0.hdr.L2(), n) <==>
      forall v: nat :: v < img0.hdr.L2() && Slot(img0, v) == 0 ==> Shown(StackRead(below, v), n) == Grow.Zeros(n)
  {
    var n := img0.hdr.Words();
    forall v: nat | v < img0.hdr.L2()
      ensures Shown(StackRead([d] + below, v), n) == Shown(StackRead([img0] + below, v), n) <==>
        (Slot(img0, v) == 0 ==> Shown(StackRead(below, v), n) == Grow.Zeros(n))
    {
      ShownOnTop(img0, d, below, v);
    }
  }

  /** The delta of a device of one cluster that holds `word` everywhere. */
  function OneCluster(word: U32): Img {
    Img(Header(V1, 8, 8, 0, 8, false, 0),
      [seq(1024, k requires 0 <= k < 1024 => if k == 16 then 8 else 0), seq(1024, k requires 0 <= k < 1024 => word)])
  }

  lemma OneClusterReads(word: U32)
    ensures Valid(OneCluster(word)) && Read(OneCluster(word), 0) == Data(seq(1024, k requires 0 <= k < 1024 => word))
    ensures OneCluster(word).hdr.L2() == 1 && Slot(OneCluster(word), 0) == 8
  {
    var c := OneCluster(word);
    forall v: nat | v >= 1 && SlotBlock(v, 1024) < 1 ensures Slot(c, v) == 0 { SlotPosition(v, 1024); }
  }

  lemma EmptyFilled(img0: Img)
    requires img0 == Img(OneCluster(0).hdr, [seq(1024, k requires 0 <= k < 1024 => 0 as U32)])
    ensures Valid(img0) && FilledTo(img0, OneCluster(0), 1) && Slot(img0, 0) == 0
  {
    OneClusterReads(0);
    forall v: nat | SlotBlock(v, 1024) < 1 ensures Slot(img0, v) == 0 { SlotPosition(v, 1024); }
    assert Holes(img0, 1) == 1;
    assert Grow.Zeros(1024) == seq(1024, k requires 0 <= k < 1024 => 0 as U32);
  }

  /** An empty delta that is converted hides what the delta below it has. */
  lemma HidesOne() returns (img0: Img, d: Img, b: Img)
    ensures Valid(img0) && Valid(b) && FilledTo(img0, d, img0.hdr.L2())
    ensures !ShowsSame([d] + [b], [img0] + [b], img0.hdr.L2(), img0.hdr.Words())
  {
    d, b := OneCluster(0), OneCluster(1);
    img0 := Img(d.hdr, [seq(1024, k requires 0 <= k < 1024 => 0 as U32)]);
    OneClusterReads(1);
    EmptyFilled(img0);
    HidesBelow(img0, d, [b]);
    assert Shown(StackRead([b], 0), 1024)[0] == 1;
  }
}
