/** Putting a saved index table and header back after an interrupted version conversion. */
module Restore {
  import opened Image
  import opened Disk

  // ---------- the conversion mark, bit 1 of the header flags ----------

  predicate Marked(flags: nat) { flags / 2 % 2 == 1 }
  function SetMark(flags: nat): (r: nat)
    ensures Marked(r) && r / 4 == flags / 4 && r % 2 == flags % 2
  {
    if Marked(flags) then flags else flags + 2
  }
  function ClearMark(flags: nat): (r: nat)
    ensures !Marked(r) && r / 4 == flags / 4 && r % 2 == flags % 2
  {
    if Marked(flags) then flags - 2 else flags
  }

  /** The backup of an image: its header and its index clusters. */
  function BackupOf(img: Img): Img
    requires img.hdr.L1() <= |img.blocks|
  {
    Img(img.hdr, img.blocks[..img.hdr.L1()])
  }

  /** `c` is `orig` again, up to in-use mark and flags, possibly with a longer file. */
  ghost predicate Intact(orig: Img, c: Img) {
    && c.hdr.SameLayout(orig.hdr) && |orig.blocks| <= |c.blocks|
    && (forall b :: 0 <= b < |c.blocks| ==> |c.blocks[b]| == orig.hdr.Words())
    && (forall b,
      o :: 0 <= b < |orig.blocks| && 0 <= o < |orig.blocks[b]| && o < |c.blocks[b]| && (b > 0 || o >= MAP_OFFSET) ==>
          c.blocks[b][o] == orig.blocks[b][o])
  }

  /** An intact delta reads what the original read. */
  lemma IntactReads(orig: Img, c: Img, v: nat)
    requires Valid(orig) && Intact(orig, c) && 0 < orig.hdr.L1()
    ensures Read(c, v) == Read(orig, v)
  {
    if v < orig.hdr.L2() {
      SlotPosition(v, orig.hdr.Words());
      assert SlotBlock(v, orig.hdr.Words()) == 0 ==> SlotWord(v, orig.hdr.Words()) >= MAP_OFFSET;
      assert Slot(c, v) == Slot(orig, v);
      if Slot(orig, v) != 0 {
        var t := Target(orig, v);
        assert Points(Slot(orig, v), orig);
        assert forall o :: 0 <= o < |c.blocks[t]| ==> c.blocks[t][o] == orig.blocks[t][o];
        assert c.blocks[t] == orig.blocks[t];
      }
    }
  }

  /** The shape comparison that makes `do_restore_fmt_version` give up. */
  predicate RestoreRefused(img: Img, saved: Img) {
    img.hdr.L1() != saved.hdr.L1() || img.hdr.L2() != saved.hdr.L2() || img.hdr.blocksize != saved.hdr.blocksize
  }

  /** The saved header as it is written back: marked, and with 1 in the in-use field, which is not the
      in-use signature. */
  function RestoredHeader(saved: Img): Header {
    saved.hdr.(inUse := false, flags := SetMark(saved.hdr.flags))
  }

  /** Word `o` of cluster `b` is a word of the saved index, not of the header. */
  predicate SavedWord(saved: Img, b: nat, o: nat) {
    b < |saved.blocks| && o < |saved.blocks[b]| && (b > 0 || o >= MAP_OFFSET)
  }

  /** `c` has the saved header and index, and the data clusters of `img`. */
  ghost predicate RestoredTo(img: Img, saved: Img, c: Img, clu: nat) {
    && WellSized(c) && |c.blocks| == |img.blocks| && c.hdr == (if clu > 0 then RestoredHeader(saved) else img.hdr)
    && (forall b: nat, o: nat :: b < clu && b < |c.blocks| && SavedWord(saved, b, o) && o < |c.blocks[b]| ==>
          c.blocks[b][o] == saved.blocks[b][o])
    && (forall b :: |saved.blocks| <= b < |c.blocks| ==> c.blocks[b] == img.blocks[b])
  }

  ghost predicate RestoreDone(img: Img, saved: Img, c: Img) { RestoredTo(img, saved, c, |saved.blocks|) }

  /** An interrupted restoration: header old or restored, any index, the same data clusters. */
  ghost predicate RestoreTorn(img: Img, saved: Img, c: Img) {
    && (c.hdr == img.hdr || c.hdr == RestoredHeader(saved))
    && |img.blocks| <= |c.blocks|
    && (forall b :: 0 <= b < |c.blocks| ==> |c.blocks[b]| == img.hdr.Words())
    && (forall b :: |saved.blocks| <= b < |img.blocks| ==> c.blocks[b] == img.blocks[b])
  }

  predicate RestoreWrite(saved: Img, w: Write) {
    (w.WordsAt? && w.block < |saved.blocks|) || w == HeaderAt(RestoredHeader(saved))
  }

  ghost predicate RestoreSafe(img: Img, saved: Img, trace: seq<Snap>, from: nat) {
    forall k, c :: from <= k < |trace| && Possible(trace[k], c) ==> RestoreTorn(img, saved, c)
  }

  lemma RestoreCrash(img: Img, saved: Img, s: Snap, c: Img)
    requires WellSized(s.dur) && RestoreTorn(img, saved, s.dur) && |s.dur.blocks| == |img.blocks| && Possible(s, c)
    requires saved.hdr.blocksize == img.hdr.blocksize
    requires forall k :: 0 <= k < |s.log| ==> RestoreWrite(saved, s.log[k])
    ensures RestoreTorn(img, saved, c)
  {
    var base: Header :| && (base == s.dur.hdr || HeaderAt(base) in s.log)
      && (c.hdr.version == base.version || VersionAt(c.hdr.version) in s.log)
      && (c.hdr.inUse == base.inUse || InUseAt(c.hdr.inUse) in s.log)
      && (c.hdr.flags == base.flags || FlagsAt(c.hdr.flags) in s.log)
      && c.hdr == base.(version := c.hdr.version, inUse := c.hdr.inUse, flags := c.hdr.flags);
    forall b | |saved.blocks| <= b < |img.blocks| ensures c.blocks[b] == img.blocks[b] { Untouched(s, c, b); }
  }

  lemma RestoreSafeStep(img: Img, saved: Img, trace: seq<Snap>, from: nat, s: Snap)
    requires from <= |trace| && RestoreSafe(img, saved, trace, from)
    requires WellSized(s.dur) && RestoreTorn(img, saved, s.dur) && |s.dur.blocks| == |img.blocks|
    requires saved.hdr.blocksize == img.hdr.blocksize
    requires forall k :: 0 <= k < |s.log| ==> RestoreWrite(saved, s.log[k])
    ensures RestoreSafe(img, saved, trace + [s], from)
  {
    forall k, c | from <= k < |trace| + 1 && Possible((trace + [s])[k], c) ensures RestoreTorn(img, saved, c) {
      if k == |trace| { RestoreCrash(img, saved, s, c); }
    }
  }

  /** `do_restore_fmt_version`: copies the saved header (marked) and index over the delta, then syncs. */
  method DoRestore(f: File, saved: Img) returns (ok: bool)
    requires WellSized(f.cur) && f.cur == f.dur && f.log == []
    requires WellSized(saved) && 0 < saved.hdr.L1() == |saved.blocks| && f.cur.hdr.L1() <= |f.cur.blocks|
    modifies f
    ensures ok <==> !RestoreRefused(old(f.cur), saved)
    ensures old(f.trace) <= f.trace && RestoreSafe(old(f.cur), saved, f.trace, |old(f.trace)|)
    ensures !ok ==> unchanged(f)
    ensures ok ==> f.cur == f.dur && f.log == [] && RestoreDone(old(f.cur), saved, f.cur)
  {
    ghost var img, before := f.cur, f.trace;
    if f.cur.hdr.L1() != saved.hdr.L1() || f.cur.hdr.L2() != saved.hdr.L2() ||
      f.cur.hdr.blocksize != saved.hdr.blocksize {
      return false;
    }
    var clu := 0;
    while clu < saved.hdr.L1()
      invariant 0 <= clu <= saved.hdr.L1() && RestoredTo(img, saved, f.cur, clu) && f.dur == img
      invariant forall k :: 0 <= k < |f.log| ==> RestoreWrite(saved, f.log[k])
      invariant before <= f.trace && RestoreSafe(img, saved, f.trace, |before|)
    {
      var buf := saved.blocks[clu];
      var skip := 0;
      if clu == 0 {
        skip := MAP_OFFSET;
        RestoreSafeStep(img, saved, f.trace, |before|, Snap(img, f.log + [HeaderAt(RestoredHeader(saved))]));
        f.Write(HeaderAt(RestoredHeader(saved)));
      }
      RestoreSafeStep(img, saved, f.trace, |before|, Snap(img, f.log + [WordsAt(clu, skip, buf[skip..])]));
      f.Write(WordsAt(clu, skip, buf[skip..]));
      clu := clu + 1;
    }
    RestoreSafeStep(img, saved, f.trace, |before|, Snap(f.cur, []));
    f.Fsync();
    ok := true;
  }
}
