/** Offline merge of a stack of deltas into the one below it. */
module Merge {
  import opened Image
  import opened Disk
  import opened Geometry
  import opened Stack

  // ---------- storing one cluster, on values ----------

  /** Cluster `v` of `e` replaced by `data`: over its block if it has one, else at the end of the file. */
  function Store(e: Img, v: nat, data: Block): Img
    requires e.hdr.blocksize > 0
  {
    if Slot(e, v) != 0 && Target(e, v) < |e.blocks| then e.(blocks := e.blocks[Target(e, v) := data])
    else
      var b, w := SlotBlock(v, e.hdr.Words()), SlotWord(v, e.hdr.Words());
      if b < |e.blocks| && w < |e.blocks[b]| then
        var x: U32 := Enc(|e.blocks|, e.hdr.blocksize, e.hdr.version);
        var table: Block := e.blocks[b][..w] + [x] + e.blocks[b][w + 1..];
        e.(blocks := e.blocks[b := table] + [data])
      else e
  }

  lemma StoreSlots(e: Img, v: nat, data: Block)
    requires Valid(e) && v < e.hdr.L2() && |data| == e.hdr.Words() && Fits(|e.blocks|, e.hdr.blocksize, e.hdr.version)
    ensures forall u: nat :: SlotBlock(u, e.hdr.Words()) < e.hdr.L1() ==>
      Slot(Store(e, v, data), u) ==
      (if u == v && Slot(e, v) == 0 then Enc(|e.blocks|, e.hdr.blocksize, e.hdr.version) else Slot(e, u))
    ensures WellSized(Store(e, v, data))
  {
    var n := e.hdr.Words();
    SlotPosition(v, n);
    forall u: nat | SlotBlock(u, n) < e.hdr.L1() ensures Slot(Store(e, v, data), u) ==
      if u == v && Slot(e, v) == 0 then Enc(|e.blocks|, e.hdr.blocksize, e.hdr.version) else Slot(e, u)
    {
      if SlotBlock(u, n) == SlotBlock(v, n) && SlotWord(u, n) == SlotWord(v, n) { SlotDistinct(u, v, n); }
    }
  }

  /** Distinct slots lead to distinct clusters. */
  lemma TargetsDistinct(e: Img, u: nat, v: nat)
    requires Valid(e) && u < e.hdr.L2() && v < e.hdr.L2() && u != v && Slot(e, u) != 0 && Slot(e, v) != 0
    ensures Target(e, u) != Target(e, v)
  {
    EncBlockOf(Slot(e, u), e.hdr.blocksize, e.hdr.version);
    EncBlockOf(Slot(e, v), e.hdr.blocksize, e.hdr.version);
    assert u < v ==> Slot(e, u) != Slot(e, v);
    assert v < u ==> Slot(e, v) != Slot(e, u);
  }

  /** Storing keeps the image valid and changes what exactly one cluster reads. */
  lemma StoreReads(e: Img, v: nat, data: Block)
    requires Valid(e) && v < e.hdr.L2() && |data| == e.hdr.Words() && Fits(|e.blocks|, e.hdr.blocksize, e.hdr.version)
    ensures Valid(Store(e, v, data))
    ensures forall u: nat :: u < e.hdr.L2() ==> Read(Store(e, v, data), u) == if u == v then Data(data) else Read(e, u)
  {
    var f, x := Store(e, v, data), Enc(|e.blocks|, e.hdr.blocksize, e.hdr.version);
    StoreSlots(e, v, data);
    BlockOfEnc(|e.blocks|, e.hdr.blocksize, e.hdr.version);
    forall u: nat | u < e.hdr.L2() ensures Read(f, u) == if u == v then Data(data) else Read(e, u) {
      if u != v && Slot(e, u) != 0 && Slot(e, v) != 0 { TargetsDistinct(e, u, v); }
    }
    forall u: nat | u < e.hdr.L2() && Slot(e, u) != 0 ensures Slot(e, u) != x || Slot(e, v) != 0 {
      assert Target(e, u) < |e.blocks|;
    }
  }

  // ---------- what must survive a crash while merging ----------

  /** The upper deltas do not have cluster `v`: it is read from the delta being written. */
  ghost predicate Exposed(uppers: seq<Img>, out: Img, v: nat) {
    v < out.hdr.L2() && StackRead(uppers, v) == Hole
  }

  /** `img` has the exposed entries and the exposed data of `out`. */
  ghost predicate Keeps(uppers: seq<Img>, out: Img, img: Img) {
    && Valid(out) && WellSized(img) && img.hdr.blocksize == out.hdr.blocksize && out.hdr.L1() <= |img.blocks|
    && forall v: nat :: Exposed(uppers, out, v) ==>
         Slot(img, v) == Slot(out, v) &&
         (Slot(out, v) != 0 ==>
             Target(out, v) < |img.blocks| && img.blocks[Target(out, v)] == out.blocks[Target(out, v)])
  }

  /** The write leaves the exposed entries and data as they are. */
  ghost predicate KeepsWrite(uppers: seq<Img>, out: Img, w: Write)
    requires out.hdr.blocksize > 0
  {
    match w
    case WordsAt(b, o, words) =>
      forall v: nat :: Exposed(uppers, out, v) ==>
        (b == SlotBlock(v, out.hdr.Words()) && o <= SlotWord(v, out.hdr.Words()) < o + |words| ==>
           words[SlotWord(v, out.hdr.Words()) - o] == Slot(out, v)) &&
        (Slot(out, v) != 0 ==> b != Target(out, v))
    case HeaderAt(h) => h.SameLayout(out.hdr)
    case InUseAt(_) => true
    case FlagsAt(_) => true
    case VersionAt(_) => false
  }

  ghost predicate KeepsLog(uppers: seq<Img>, out: Img, log: seq<Write>)
    requires out.hdr.blocksize > 0
  {
    forall k :: 0 <= k < |log| ==> KeepsWrite(uppers, out, log[k])
  }

  /** The whole stack, with `c` at the bottom, reads as with `lower` at the bottom. */
  ghost predicate SameStack(uppers: seq<Img>, lower: Img, c: Img) {
    forall v: nat :: StackRead(uppers + [c], v) == StackRead(uppers + [lower], v)
  }

  /** `c` can be opened again: a valid image of the size it had, or of the size of the topmost delta. */
  ghost predicate Reopens(uppers: seq<Img>, lower: Img, c: Img) {
    Valid(c) && (c.hdr.SameLayout(lower.hdr) || HasGrown(uppers, c.hdr))
  }

  /** The header has the layout that growing to the size of the topmost delta gives. */
  predicate HasGrown(uppers: seq<Img>, h: Header) {
    && |uppers| > 0 && uppers[0].hdr.blocksize > 0
    && h.SameLayout(GeneratePvdHeader(uppers[0].hdr.SizeInSectors(), uppers[0].hdr.blocksize, uppers[0].hdr.version))
  }

  /** Whatever a crash leaves can be opened again, and the stack reads as before. */
  ghost predicate MergeSafe(uppers: seq<Img>, lower: Img, s: Snap) {
    forall c :: Possible(s, c) ==> SameStack(uppers, lower, c) && Reopens(uppers, lower, c)
  }

  /** Everything recorded since `before` is safe, and the in-use mark was on the disk before anything was written. */
  ghost predicate SafeSince(uppers: seq<Img>, lower: Img, trace: seq<Snap>, before: seq<Snap>) {
    before <= trace && forall k :: |before| <= k < |trace| ==>
      MergeSafe(uppers, lower, trace[k]) && Watched(lower.blocks, trace[k])
  }

  lemma SafeMore(uppers: seq<Img>, lower: Img, trace: seq<Snap>, before: seq<Snap>, s: Snap)
    requires SafeSince(uppers, lower, trace, before) && MergeSafe(uppers, lower, s) && Watched(lower.blocks, s)
    ensures SafeSince(uppers, lower, trace + [s], before)
  {
  }

  // ---------- every crash leaves a valid image ----------

  /** A write that leaves the index of `out` alone. */
  predicate DataOnly(out: Img, w: Write) {
    match w
    case WordsAt(b, _, _) => b >= out.hdr.L1()
    case HeaderAt(h) => h.SameLayout(out.hdr)
    case VersionAt(_) => false
    case _ => true
  }

  /** The durable image is valid under the header it has and under that of `out`, and its index is that of the file. */
  ghost predicate SoundBelow(out: Img, dur: Img, cur: Img) {
    && Valid(dur) && Valid(dur.(hdr := out.hdr)) && dur.hdr.L1() <= out.hdr.L1() <= |dur.blocks| <= |cur.blocks|
    && dur.hdr.blocksize == out.hdr.blocksize
    && forall b :: 0 <= b < out.hdr.L1() ==> cur.blocks[b] == dur.blocks[b]
  }

  /** While only data is pending. */
  lemma DataCrash(out: Img, s: Snap, cur: Img, c: Img)
    requires SoundBelow(out, s.dur, cur) && (forall k :: 0 <= k < |s.log| ==> DataOnly(out, s.log[k])) && Possible(s, c)
    requires c.hdr.SameLayout(s.dur.hdr) || c.hdr.SameLayout(out.hdr)
    ensures Valid(c)
  {
    forall b | 0 <= b < out.hdr.L1() ensures c.blocks[b] == s.dur.blocks[b] {
      assert forall k :: 0 <= k < |s.log| ==> DataOnly(out, s.log[k]);
      Untouched(s, c, b);
    }
    SameIndexValid(if c.hdr.SameLayout(out.hdr) then s.dur.(hdr := out.hdr) else s.dur, c);
  }

  /** Index cluster `l2` has entries of `table`, and more. */
  predicate OnlyAdds(table: Block, l2: Block) {
    |l2| == |table| && forall o :: 0 <= o < |l2| && table[o] != 0 ==> l2[o] == table[o]
  }

  /** While index cluster `i` is pending, with all data in place, each of its entries is the old or the new one. */
  lemma TableCrash(cur: Img, e: Img, i: nat, skip: nat, l2: Block, c: Img)
    requires Valid(cur) && i < |cur.blocks| && OnlyAdds(cur.blocks[i], l2) && skip <= |l2|
    requires e == cur.(blocks := cur.blocks[i := l2]) && Valid(e)
    requires Possible(Snap(cur, [WordsAt(i, skip, l2[skip..])]), c)
    ensures Valid(c)
  {
    var s, n := Snap(cur, [WordsAt(i, skip, l2[skip..])]), cur.hdr.Words();
    forall b | 0 <= b < |cur.blocks| && b != i ensures c.blocks[b] == cur.blocks[b] { Untouched(s, c, b); }
    forall v: nat | SlotBlock(v, n) < cur.hdr.L1() ensures Slot(c, v) == Slot(e, v) || Slot(c, v) == Slot(cur, v) == 0 {
      SlotPosition(v, n);
      var o := SlotWord(v, n);
      if SlotBlock(v, n) == i && c.blocks[i][o] != cur.blocks[i][o] {
        assert Puts(s.log[0], i, o, c.blocks[i][o]);
      }
    }
  }

  lemma CrashKeeps(uppers: seq<Img>, out: Img, s: Snap, c: Img)
    requires Keeps(uppers, out, s.dur) && KeepsLog(uppers, out, s.log) && Possible(s, c)
    requires c.hdr.blocksize == out.hdr.blocksize
    ensures Keeps(uppers, out, c)
  {
    var n := out.hdr.Words();
    forall v: nat | Exposed(uppers, out, v)
      ensures Slot(c, v) == Slot(out, v)
      ensures Slot(out, v) != 0 ==>
        Target(out, v) < |c.blocks| && c.blocks[Target(out, v)] == out.blocks[Target(out, v)]
    {
      SlotPosition(v, n);
      var b, o := SlotBlock(v, n), SlotWord(v, n);
      assert forall k :: 0 <= k < |s.log| ==> KeepsWrite(uppers, out, s.log[k]);
      WordKept(s, c, b, o);
      if Slot(out, v) != 0 { Untouched(s, c, Target(out, v)); }
    }
  }

  /** `out` reads like `lower` and has holes where `lower` ends. */
  ghost predicate Extends(lower: Img, out: Img) {
    && Valid(lower) && Valid(out) && lower.hdr.L2() <= out.hdr.L2()
    && out.hdr.blocksize == lower.hdr.blocksize && out.hdr.version == lower.hdr.version
    && (forall v: nat :: v < lower.hdr.L2() ==> Read(out, v) == Read(lower, v))
    && (forall v: nat :: lower.hdr.L2() <= v < out.hdr.L2() ==> Read(out, v) == Hole)
  }

  lemma KeptReads(uppers: seq<Img>, lower: Img, out: Img, c: Img, v: nat)
    requires Extends(lower, out) && Keeps(uppers, out, c) && Exposed(uppers, out, v)
    requires c.hdr.SameLayout(lower.hdr) || c.hdr.SameLayout(out.hdr)
    ensures StackRead([c], v) == StackRead([lower], v)
  {
    ReadEntry(lower, v);
    ReadEntry(out, v);
    assert StackRead([][..], v) == Hole;
    if c.hdr.SameLayout(out.hdr) {
      assert Read(c, v) == Read(out, v);
    } else if v < lower.hdr.L2() {
      assert Read(c, v) == Read(out, v);
    }
  }

  lemma HeaderLayouts(lower: Img, out: Img, s: Snap, c: Img)
    requires s.dur.hdr.SameLayout(lower.hdr) || s.dur.hdr.SameLayout(out.hdr)
    requires forall k :: 0 <= k < |s.log| ==>
      !s.log[k].VersionAt? && (s.log[k].HeaderAt? ==> s.log[k].hdr.SameLayout(out.hdr))
    requires Possible(s, c)
    ensures c.hdr.SameLayout(lower.hdr) || c.hdr.SameLayout(out.hdr)
  {
    var base: Header :| && (base == s.dur.hdr || HeaderAt(base) in s.log)
      && (c.hdr.version == base.version || VersionAt(c.hdr.version) in s.log)
      && c.hdr == base.(version := c.hdr.version, inUse := c.hdr.inUse, flags := c.hdr.flags);
  }

  /** A crash during the merge does not change what the stack reads. */
  lemma KeptReadsSame(uppers: seq<Img>, lower: Img, out: Img, s: Snap, c: Img)
    requires Extends(lower, out) && Keeps(uppers, out, s.dur) && KeepsLog(uppers, out, s.log)
    requires s.dur.hdr.SameLayout(lower.hdr) || s.dur.hdr.SameLayout(out.hdr)
    requires Possible(s, c)
    ensures SameStack(uppers, lower, c) && (c.hdr.SameLayout(lower.hdr) || c.hdr.SameLayout(out.hdr))
  {
    assert forall k :: 0 <= k < |s.log| ==> KeepsWrite(uppers, out, s.log[k]);
    HeaderLayouts(lower, out, s, c);
    CrashKeeps(uppers, out, s, c);
    forall v: nat ensures StackRead(uppers + [c], v) == StackRead(uppers + [lower], v) {
      StackAppend(uppers, c, v);
      StackAppend(uppers, lower, v);
      assert StackRead([c][1..], v) == Hole && StackRead([lower][1..], v) == Hole;
      if Exposed(uppers, out, v) { KeptReads(uppers, lower, out, c, v); }
    }
  }

  /** Nor does it leave anything but a valid image. */
  lemma KeptSafe(uppers: seq<Img>, lower: Img, out: Img, s: Snap, cur: Img)
    requires Extends(lower, out) && Keeps(uppers, out, s.dur) && KeepsLog(uppers, out, s.log)
    requires s.dur.hdr.SameLayout(lower.hdr) || s.dur.hdr.SameLayout(out.hdr)
    requires SoundBelow(out, s.dur, cur) && HasGrown(uppers, out.hdr)
    requires forall k :: 0 <= k < |s.log| ==> DataOnly(out, s.log[k])
    ensures MergeSafe(uppers, lower, s)
  {
    forall c | Possible(s, c) ensures SameStack(uppers, lower, c) && Reopens(uppers, lower, c) {
      KeptReadsSame(uppers, lower, out, s, c);
      DataLayouts(out, s, c);
      DataCrash(out, s, cur, c);
    }
  }

  lemma DataLayouts(out: Img, s: Snap, c: Img)
    requires Possible(s, c) && forall k :: 0 <= k < |s.log| ==> DataOnly(out, s.log[k])
    ensures c.hdr.SameLayout(s.dur.hdr) || c.hdr.SameLayout(out.hdr)
  {
    assert forall k :: 0 <= k < |s.log| ==> DataOnly(out, s.log[k]);
    var base: Header :| && (base == s.dur.hdr || HeaderAt(base) in s.log)
      && (c.hdr.version == base.version || VersionAt(c.hdr.version) in s.log)
      && c.hdr == base.(version := c.hdr.version, inUse := c.hdr.inUse, flags := c.hdr.flags);
  }

  /** The same while an index cluster is pending. */
  lemma TableSafe(uppers: seq<Img>, lower: Img, out: Img, cur: Img, e: Img, i: nat, skip: nat, l2: Block)
    requires var w := WordsAt(i, skip, if skip <= |l2| then l2[skip..] else l2);
      Extends(lower, out) && Keeps(uppers, out, cur) && KeepsWrite(uppers, out, w)
    requires cur.hdr == out.hdr && HasGrown(uppers, out.hdr) && Valid(cur) && Valid(e)
    requires i < |cur.blocks| && OnlyAdds(cur.blocks[i], l2) && skip <= |l2| && e == cur.(blocks := cur.blocks[i := l2])
    ensures MergeSafe(uppers, lower, Snap(cur, [WordsAt(i, skip, l2[skip..])]))
  {
    var s := Snap(cur, [WordsAt(i, skip, l2[skip..])]);
    forall c | Possible(s, c) ensures SameStack(uppers, lower, c) && Reopens(uppers, lower, c) {
      KeptReadsSame(uppers, lower, out, s, c);
      TableCrash(cur, e, i, skip, l2, c);
    }
  }
}
