/** The steps of the conversion protocol carried out on files: each does what the protocol says, and whatever a crash
    in the middle leaves is one of the crashes the protocol allows. */
module FmtSteps {
  import opened Image
  import opened Disk
  import opened DeltaFile
  import opened Convert
  import opened Restore
  import opened FmtProtocol
  import opened Wrappers

  /** A crash leaves `c` of image `i`, and everything else as it is. */
  ghost predicate CrashLeaves(u: Setup, s: State, i: nat, c: Img) {
    i < |s.ds| && CrashStep(u, s, State(Down, SetImg(s.ds, i, c)))
  }

  ghost predicate CrashesAllowed(u: Setup, s: State, i: nat, trace: seq<Snap>, from: nat) {
    forall k, c :: from <= k < |trace| && Possible(trace[k], c) ==> CrashLeaves(u, s, i, c)
  }

  /** Delta `i` is open, and on the disk. */
  ghost predicate Holds(s: State, i: nat, f: File)
    reads f
  {
    i < |s.ds| && f.cur == s.ds[i].img && f.cur == f.dur && f.log == []
  }

  /** Rewriting the index of delta `i`. */
  method Rewrite(u: Setup, s: State, i: nat, d: Delta) returns (ok: bool, ghost s': State)
    requires s.pc == Rewriting(i) && Holds(s, i, d.file) && d.Working() && d.l2Cache == -1
    modifies d, d.file
    ensures ConvertStep(u, s, s') && s'.ds == SetImg(s.ds, i, d.file.cur) && (ok <==> s'.pc != Down)
    ensures ok <==> forall v: nat :: SlotBlock(v, s.ds[i].img.hdr.Words()) < s.ds[i].img.hdr.L1() ==>
      EntryAllowed(Slot(s.ds[i].img, v), s.ds[i].img.hdr.blocksize, s.ds[i].img.hdr.version, u.to)
    ensures CrashesAllowed(u, s, i, d.file.trace, |old(d.file.trace)|)
  {
    ghost var img, from := d.file.cur, |d.file.trace|;
    ok := ChangeFmtVersion(d, u.to);
    s' := State(if !ok then Down else if i + 1 < |s.ds| then Rewriting(i + 1)
      else Unmarking(0), SetImg(s.ds, i, d.file.cur));
    if ok { assert RewriteDone(img, d.file.cur, u.to); }
    forall k, c | from <= k < |d.file.trace| && Possible(d.file.trace[k], c) ensures CrashLeaves(u, s, i, c) {
      assert DataIntact(img, u.to, c);
    }
  }

  /** Restoring delta `i` from its backup. */
  method RestoreFromBackup(u: Setup, s: State, i: nat, flags: nat, f: File, saved: Img)
    returns (ok: bool, ghost s': State)
    requires s.pc == Restoring(i, flags) && Holds(s, i, f) && s.ds[i].backup == Some(saved)
    requires WellSized(f.cur) && WellSized(saved) && 0 < saved.hdr.L1() == |saved.blocks|
    requires f.cur.hdr.L1() <= |f.cur.blocks|
    modifies f
    ensures RecoverStep(u, s, s') && s'.ds == SetImg(s.ds, i, f.cur) && (ok <==> s'.pc != Down)
    ensures CrashesAllowed(u, s, i, f.trace, |old(f.trace)|)
  {
    ghost var img, from := f.cur, |f.trace|;
    ok := DoRestore(f, saved);
    s' := State(if ok then ReUnmarking(i, flags) else Down, SetImg(s.ds, i, f.cur));
    if ok { assert RestoreDone(img, saved, f.cur); } else { assert SetImg(s.ds, i, img) == s.ds; }
    forall k, c | from <= k < |f.trace| && Possible(f.trace[k], c) ensures CrashLeaves(u, s, i, c) {
      assert RestoreTorn(img, saved, c);
    }
  }

  /** The steps that change a single field of the header, and what they write. */
  ghost predicate SetsField(u: Setup, pc: Pc, i: nat, w: Write) {
    match pc
    case Using(j) => i == j && w == InUseAt(true)
    case Marking(j) => i == j && i < |u.orig| && w == FlagsAt(SetMark(u.orig[i].hdr.flags))
    case Unmarking(j) => i == j && i < |u.orig| && w == FlagsAt(ClearMark(u.orig[i].hdr.flags))
    case Clearing(j) => i == j && w == InUseAt(false)
    case ReUnmarking(j, flags) => i == j && w == FlagsAt(ClearMark(flags))
    case ReClearing(j) => i == j && w == InUseAt(false)
    case _ => false
  }

  /** While a field is pending, a crash leaves the old or the new one; the file may have got longer. */
  lemma FieldCrash(img: Img, w: Write, c: Img)
    requires WellSized(img) && (w.InUseAt? || w.FlagsAt?) && Possible(Snap(img, [w]), c)
    ensures img.blocks <= c.blocks && (c.hdr == img.hdr || c.hdr == Apply(img, w).hdr)
  {
    var s := Snap(img, [w]);
    forall b | 0 <= b < |img.blocks| ensures c.blocks[b] == img.blocks[b] { Untouched(s, c, b); }
    var base: Header :| && (base == img.hdr || HeaderAt(base) in s.log)
      && (c.hdr.version == base.version || VersionAt(c.hdr.version) in s.log)
      && (c.hdr.inUse == base.inUse || InUseAt(c.hdr.inUse) in s.log)
      && (c.hdr.flags == base.flags || FlagsAt(c.hdr.flags) in s.log)
      && c.hdr == base.(version := c.hdr.version, inUse := c.hdr.inUse, flags := c.hdr.flags);
  }

  lemma FieldDone(u: Setup, s: State, i: nat, w: Write) returns (s': State)
    requires i < |s.ds| && SetsField(u, s.pc, i, w)
    ensures (ConvertStep(u, s, s') || RecoverStep(u, s, s')) && s'.ds == SetImg(s.ds, i, Apply(s.ds[i].img, w))
  {
    var n := |s.ds|;
    var pc := match s.pc
      case Using(_) => Marking(i)
      case Marking(_) => if i + 1 < n then Using(i + 1) else Rewriting(0)
      case Unmarking(_) => Clearing(i)
      case Clearing(_) => if i + 1 < n then Unmarking(i + 1) else Dropping(0)
      case ReUnmarking(_, _) => ReClearing(i)
      case _ => ReDropping(i);
    s' := State(pc, SetImg(s.ds, i, Apply(s.ds[i].img, w)));
  }

  /** The state a crash leaves, apart from clusters past the old end of the file. */
  ghost predicate CrashLeavesUpToLength(u: Setup, s: State, i: nat, c: Img) {
    i < |s.ds| && |s.ds[i].img.blocks| <= |c.blocks| &&
    CrashLeaves(u, s, i, c.(blocks := c.blocks[..|s.ds[i].img.blocks|]))
  }

  /** Writing one field and waiting until it is on the disk. */
  method SetField(u: Setup, s: State, i: nat, w: Write, f: File) returns (ghost s': State)
    requires Holds(s, i, f) && SetsField(u, s.pc, i, w) && WellSized(f.cur)
    modifies f
    ensures (ConvertStep(u, s, s') || RecoverStep(u, s, s')) && Holds(s', i, f)
    ensures forall k, c :: |old(f.trace)| <= k < |f.trace| && Possible(f.trace[k], c) ==>
      CrashLeavesUpToLength(u, s, i, c)
  {
    ghost var img, from := f.cur, |f.trace|;
    s' := FieldDone(u, s, i, w);
    f.Write(w);
    f.Fsync();
    forall k, c | from <= k < |f.trace| && Possible(f.trace[k], c) ensures CrashLeavesUpToLength(u, s, i, c) {
      if k == from { FieldCrash(img, w, c); } else { SyncedCrash(Apply(img, w), c); }
      var t := c.(blocks := c.blocks[..|img.blocks|]);
      assert t.blocks == img.blocks;
      if t == img { assert SetImg(s.ds, i, t) == s.ds; } else { assert SetImg(s.ds, i, t) == s'.ds; }
    }
  }
}
