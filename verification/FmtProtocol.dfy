/** Converting the format version of a whole stack of deltas, with crashes and recovery.
    Each step below is one durable step of the program; a crash may interrupt any of them. */
module FmtProtocol {
  import opened Image
  import opened Disk
  import opened Convert
  import opened Restore
  import opened Runs
  import opened Wrappers

  /** What is on the disk for one delta: the image file and the index backup file. */
  datatype DState = DState(img: Img, backup: Option<Img>)

  datatype Pc =
    | Backing(i: nat) | Using(i: nat) | Marking(i: nat) | Rewriting(i: nat)
    | Unmarking(i: nat) | Clearing(i: nat) | Dropping(i: nat) | Finished
    | Down
    | Walking(i: nat) | Restoring(i: nat, flags: nat) | ReUnmarking(i: nat, flags: nat)
    | ReClearing(i: nat) | ReDropping(i: nat)
    | Recovered

  datatype State = State(pc: Pc, ds: seq<DState>)

  /** The stack before conversion: `orig[j]` is the j-th image, `base` the index of the base image. */
  datatype Setup = Setup(orig: seq<Img>, base: nat, to: Version)

  function SetImg(ds: seq<DState>, i: nat, img: Img): seq<DState>
    requires i < |ds|
  {
    ds[i := ds[i].(img := img)]
  }

  function SetBackup(ds: seq<DState>, i: nat, b: Option<Img>): seq<DState>
    requires i < |ds|
  {
    ds[i := ds[i].(backup := b)]
  }

  // ---------- the converter ----------

  ghost predicate ConvertStep(u: Setup, s: State, s': State) {
    var n := |s.ds|;
    match s.pc
    case Backing(i) => i < n && s.ds[i].img.hdr.L1() <= |s.ds[i].img.blocks| &&
      s'.ds == SetBackup(s.ds, i, Some(BackupOf(s.ds[i].img))) &&
      s'.pc == if i + 1 < n then Backing(i + 1) else Using(0)
    case Using(i) => i < n &&
      s'.ds == SetImg(s.ds, i, Apply(s.ds[i].img, InUseAt(true))) && s'.pc == Marking(i)
    case Marking(i) => i < n && i < |u.orig| &&
      s'.ds == SetImg(s.ds, i, Apply(s.ds[i].img, FlagsAt(SetMark(u.orig[i].hdr.flags)))) &&
      s'.pc == if i + 1 < n then Using(i + 1) else Rewriting(0)
    case Rewriting(i) => i < n && exists c ::
      s'.ds == SetImg(s.ds, i, c) &&
      ((RewriteDone(s.ds[i].img, c, u.to) && s'.pc == if i + 1 < n then Rewriting(i + 1) else Unmarking(0)) ||
       (DataIntact(s.ds[i].img, u.to, c) && s'.pc == Down))
    case Unmarking(i) => i < n && i < |u.orig| &&
      s'.ds == SetImg(s.ds, i, Apply(s.ds[i].img, FlagsAt(ClearMark(u.orig[i].hdr.flags)))) && s'.pc == Clearing(i)
    case Clearing(i) => i < n &&
      s'.ds == SetImg(s.ds, i, Apply(s.ds[i].img, InUseAt(false))) &&
      s'.pc == if i + 1 < n then Unmarking(i + 1) else Dropping(0)
    case Dropping(i) => i < n &&
      s'.ds == SetBackup(s.ds, i, None) && s'.pc == if i + 1 < n then Dropping(i + 1) else Finished
    case _ => false
  }

  /** Success of the rewriting of one delta: every slot passed the check and was rewritten. */
  ghost predicate RewriteDone(img: Img, c: Img, to: Version) {
    Converted(img, c, to) &&
    forall v: nat :: img.hdr.Words() > 0 && SlotBlock(v, img.hdr.Words()) < img.hdr.L1() ==>
      EntryAllowed(Slot(img, v), img.hdr.blocksize, img.hdr.version, to)
  }

  // ---------- recovery ----------

  /** Where recovery goes after delta `i`: the others in order, the base at the end. */
  function After(u: Setup, n: nat, i: nat): Pc {
    if i == u.base then Recovered else Walking(i + 1)
  }

  ghost predicate RecoverStep(u: Setup, s: State, s': State) {
    var n := |s.ds|;
    match s.pc
    case Down => u.base < n && s'.ds == s.ds &&
      s'.pc == if Marked(s.ds[u.base].img.hdr.flags) then Walking(0) else Recovered
    case Walking(i) => s'.ds == s.ds && u.base < n &&
      if i < n && (i == u.base || !Marked(s.ds[i].img.hdr.flags)) then s'.pc == Walking(i + 1)
      else
        var j := if i < n then i else u.base;
        s'.pc == if s.ds[j].backup.None? then Down else Restoring(j, s.ds[j].img.hdr.flags)
    case Restoring(i, flags) => i < n && s.ds[i].backup.Some? &&
      if RestoreRefused(s.ds[i].img, s.ds[i].backup.value) then s'.ds == s.ds && s'.pc == Down
      else
        s'.pc == ReUnmarking(i, flags) &&
        exists c :: RestoreDone(s.ds[i].img, s.ds[i].backup.value, c) && s'.ds == SetImg(s.ds, i, c)
    case ReUnmarking(i, flags) => i < n &&
      s'.ds == SetImg(s.ds, i, Apply(s.ds[i].img, FlagsAt(ClearMark(flags)))) && s'.pc == ReClearing(i)
    case ReClearing(i) => i < n &&
      s'.ds == SetImg(s.ds, i, Apply(s.ds[i].img, InUseAt(false))) && s'.pc == ReDropping(i)
    case ReDropping(i) => i < n && s'.ds == SetBackup(s.ds, i, None) && s'.pc == After(u, n, i)
    case _ => false
  }

  // ---------- crashes ----------

  /** A crash in the middle of a step: the delta being worked on is left as it was, as the step would
      leave it, or in between; the others are untouched. */
  ghost predicate CrashStep(u: Setup, s: State, s': State) {
    var n := |s.ds|;
    s'.pc == Down &&
    (s'.ds == s.ds ||
     match s.pc
     case Backing(i) => i < n && exists b :: s'.ds == SetBackup(s.ds, i, b)
     case Rewriting(i) => i < n && exists c :: DataIntact(s.ds[i].img, u.to, c) && s'.ds == SetImg(s.ds, i, c)
     case Restoring(i, _) => i < n && s.ds[i].backup.Some? &&
       exists c :: RestoreTorn(s.ds[i].img, s.ds[i].backup.value, c) && s'.ds == SetImg(s.ds, i, c)
     case _ => exists m :: (ConvertStep(u, s, m) || RecoverStep(u, s, m)) && s'.ds == m.ds)
  }

  ghost predicate Step(u: Setup, s: State, s': State) {
    ConvertStep(u, s, s') || RecoverStep(u, s, s') || CrashStep(u, s, s')
  }

  // ---------- facts about single images ----------

  /** Same data behind a header of the same shape; the version and the index may differ. */
  ghost predicate DataPart(o: Img, to: Version, c: Img) {
    && WellSized(c) && (c.hdr.version == o.hdr.version || c.hdr.version == to)
    && c.hdr.(version := o.hdr.version).SameLayout(o.hdr)
    && |o.blocks| <= |c.blocks|
    && (forall b :: o.hdr.L1() <= b < |o.blocks| ==> c.blocks[b] == o.blocks[b])
  }

  ghost predicate IsOld(o: Img, to: Version, c: Img) { Intact(o, c) && DataPart(o, to, c) }

  /** Every cluster reads as before, in the new format. */
  ghost predicate IsNew(o: Img, c: Img, to: Version) {
    && DataPart(o, to, c) && c.hdr.version == to && c.hdr.L2() == o.hdr.L2() && Valid(c)
    && forall v: nat :: Read(c, v) == Read(o, v)
  }

  ghost predicate ReadyImage(o: Img, to: Version) {
    && Valid(o) && o.hdr.L1() > 0 && !Marked(o.hdr.flags)
    && SizeAgrees(o.hdr) && (to == V1 ==> o.hdr.sizeHigh == 0)
  }

  predicate FieldWrite(w: Write) { w.InUseAt? || w.FlagsAt? }

  lemma FieldWriteKeeps(o: Img, c: Img, to: Version, w: Write)
    requires FieldWrite(w)
    ensures var d := Apply(c, w);
      && (IsOld(o, to, c) ==> IsOld(o, to, d)) && (DataPart(o, to, c) ==> DataPart(o, to, d))
      && (IsNew(o, c, to) ==> IsNew(o, d, to))
      && (w.InUseAt? ==> d.hdr.flags == c.hdr.flags) && (w.FlagsAt? ==> d.hdr.flags == w.flags)
  {
    var d := Apply(c, w);
    assert d.hdr.L1() == c.hdr.L1() && d.hdr.L2() == c.hdr.L2() && d.hdr.Words() == c.hdr.Words();
    if IsNew(o, c, to) {
      assert forall v: nat :: Slot(d, v) == Slot(c, v);
    }
  }

  lemma OldIsOriginal(o: Img, to: Version)
    requires Valid(o)
    ensures IsOld(o, to, o)
  {
  }

  /** An intact image has the slots of the original and is as valid. */
  lemma OldValid(o: Img, to: Version, c: Img)
    requires Valid(o) && o.hdr.L1() > 0 && IsOld(o, to, c)
    ensures Valid(c) && forall v: nat :: SlotBlock(v, o.hdr.Words()) < o.hdr.L1() ==> Slot(c, v) == Slot(o, v)
  {
    var n := o.hdr.Words();
    forall v: nat | SlotBlock(v, n) < o.hdr.L1() ensures Slot(c, v) == Slot(o, v) {
      SlotPosition(v, n);
      assert SlotBlock(v, n) == 0 ==> SlotWord(v, n) >= MAP_OFFSET;
    }
  }

  lemma RewriteIsNew(o: Img, img: Img, c: Img, to: Version)
    requires ReadyImage(o, to) && IsOld(o, to, img) && RewriteDone(img, c, to)
    ensures IsNew(o, c, to) && c.hdr.flags == img.hdr.flags
  {
    OldValid(o, to, img);
    ConvertedReads(img, c, to);
    forall v: nat ensures Read(c, v) == Read(o, v) { IntactReads(o, img, v); }
  }

  lemma RewriteTorn(o: Img, to: Version, img: Img, c: Img)
    requires DataPart(o, to, img) && DataIntact(img, to, c)
    ensures DataPart(o, to, c) && c.hdr.flags == img.hdr.flags
  {
  }

  lemma RestoreIsOld(o: Img, to: Version, d: DState, c: Img)
    requires Valid(o) && o.hdr.L1() > 0 && DataPart(o, to, d.img) && d.backup == Some(BackupOf(o))
    requires RestoreDone(d.img, d.backup.value, c)
    ensures IsOld(o, to, c) && Marked(c.hdr.flags)
  {
    forall b, k | 0 <= b < |o.blocks| && 0 <= k < |o.blocks[b]| && k < |c.blocks[b]| && (b > 0 || k >= MAP_OFFSET)
      ensures c.blocks[b][k] == o.blocks[b][k]
    {
      if b < o.hdr.L1() { assert d.backup.value.blocks[b] == o.blocks[b]; }
    }
  }

  lemma RestoreTornKeeps(o: Img, to: Version, d: DState, c: Img)
    requires Valid(o) && DataPart(o, to, d.img) && Marked(d.img.hdr.flags) && d.backup == Some(BackupOf(o))
    requires RestoreTorn(d.img, d.backup.value, c)
    ensures DataPart(o, to, c) && Marked(c.hdr.flags)
  {
  }

  /** The shape comparison never refuses: conversion does not change the shape. */
  lemma NeverRefused(o: Img, to: Version, d: DState)
    requires ReadyImage(o, to) && DataPart(o, to, d.img) && d.backup == Some(BackupOf(o))
    ensures !RestoreRefused(d.img, d.backup.value)
  {
  }

  // ---------- the invariant over all runs ----------

  ghost predicate Shaped(u: Setup) {
    u.base < |u.orig| && forall j :: 0 <= j < |u.orig| ==> ReadyImage(u.orig[j], u.to)
  }

  /** A stack that may be converted: valid, unmarked deltas of one version. */
  ghost predicate Ready(u: Setup) {
    Shaped(u) && forall j :: 0 <= j < |u.orig| ==>
      !u.orig[j].hdr.inUse && u.orig[j].hdr.version == u.orig[0].hdr.version
  }

  ghost predicate BackedUp(u: Setup, ds: seq<DState>, j: nat)
    requires j < |u.orig| && j < |ds|
  {
    u.orig[j].hdr.L1() <= |u.orig[j].blocks| && ds[j].backup == Some(BackupOf(u.orig[j]))
  }

  predicate IsMarked(ds: seq<DState>, j: nat)
    requires j < |ds|
  {
    Marked(ds[j].img.hdr.flags)
  }

  ghost predicate Old(u: Setup, ds: seq<DState>, j: nat)
    requires j < |u.orig| && j < |ds|
  {
    IsOld(u.orig[j], u.to, ds[j].img)
  }

  ghost predicate New(u: Setup, ds: seq<DState>, j: nat)
    requires j < |u.orig| && j < |ds|
  {
    IsNew(u.orig[j], ds[j].img, u.to)
  }

  /** Marked and with everything needed to put it back. */
  ghost predicate Restorable(u: Setup, ds: seq<DState>, j: nat)
    requires j < |u.orig| && j < |ds|
  {
    IsMarked(ds, j) && BackedUp(u, ds, j) && DataPart(u.orig[j], u.to, ds[j].img)
  }

  ghost predicate AllOld(u: Setup, ds: seq<DState>)
    requires |ds| == |u.orig|
  {
    forall j :: 0 <= j < |ds| ==> Old(u, ds, j)
  }

  ghost predicate AllNew(u: Setup, ds: seq<DState>)
    requires |ds| == |u.orig|
  {
    forall j :: 0 <= j < |ds| ==> New(u, ds, j)
  }

  /** What recovery of the contents relies on: while the base is marked, every delta is either untouched or restorable;
      when it is not, all deltas agree. Nothing is said of marks that are left on other deltas (see `FmtMarks`). */
  ghost predicate Recoverable(u: Setup, ds: seq<DState>)
    requires |ds| == |u.orig| && u.base < |ds|
  {
    if IsMarked(ds, u.base) then
      forall j :: 0 <= j < |ds| ==> if IsMarked(ds, j) then Restorable(u, ds, j) else Old(u, ds, j)
    else AllOld(u, ds) || AllNew(u, ds)
  }

  /** Recovery has dealt with the deltas below `i`; the base comes last. */
  ghost predicate Walked(u: Setup, ds: seq<DState>, i: nat)
    requires |ds| == |u.orig| && u.base < |ds|
  {
    IsMarked(ds, u.base) && forall j :: 0 <= j < |ds| && j < i && j != u.base ==> !IsMarked(ds, j)
  }

  ghost predicate Inv(u: Setup, s: State) {
    var n, ds := |s.ds|, s.ds;
    && Shaped(u) && n == |u.orig|
    && match s.pc
       case Backing(i) => i < n && (forall j :: 0 <= j < n ==> ds[j].img == u.orig[j]) &&
         (forall j :: 0 <= j < i ==> BackedUp(u, ds, j))
       case Using(i) => i < n &&
         (forall j :: 0 <= j < n ==> BackedUp(u, ds, j) && Old(u, ds, j) && (IsMarked(ds, j) <==> j < i))
       case Marking(i) => i < n &&
         (forall j :: 0 <= j < n ==> BackedUp(u, ds, j) && Old(u, ds, j) && (IsMarked(ds, j) <==> j < i))
       case Rewriting(i) => i < n &&
         (forall j :: 0 <= j < n ==> Restorable(u, ds, j) && if j < i then New(u, ds, j) else Old(u, ds, j))
       case Unmarking(i) => i < n &&
         (forall j :: 0 <= j < n ==> BackedUp(u, ds, j) && New(u, ds, j) && (IsMarked(ds, j) <==> j >= i))
       case Clearing(i) => i < n &&
         (forall j :: 0 <= j < n ==> BackedUp(u, ds, j) && New(u, ds, j) && (IsMarked(ds, j) <==> j > i))
       case Dropping(i) => i < n && (forall j :: 0 <= j < n ==> New(u, ds, j) && !IsMarked(ds, j))
       case Finished => forall j :: 0 <= j < n ==> New(u, ds, j) && !IsMarked(ds, j)
       case Down => Recoverable(u, ds)
       case Walking(i) => i <= n && Recoverable(u, ds) && Walked(u, ds, i)
       case Restoring(i, flags) => i < n && Recoverable(u, ds) && IsMarked(ds, i) &&
         Walked(u, ds, if i == u.base then n else i)
       case ReUnmarking(i, flags) => i < n && Recoverable(u, ds) && IsMarked(ds, i) &&
         Walked(u, ds, if i == u.base then n else i) && Old(u, ds, i)
       case ReClearing(i) => Settled(u, ds, i)
       case ReDropping(i) => Settled(u, ds, i)
       case Recovered => !IsMarked(ds, u.base) && (AllOld(u, ds) || AllNew(u, ds))
  }

  /** Delta `i` was restored and unmarked. */
  ghost predicate Settled(u: Setup, ds: seq<DState>, i: nat)
    requires |ds| == |u.orig| && u.base < |ds|
  {
    i < |ds| && !IsMarked(ds, i) && Old(u, ds, i) && Recoverable(u, ds) &&
    if i == u.base then AllOld(u, ds) else Walked(u, ds, i)
  }

  lemma FieldStep(u: Setup, ds: seq<DState>, i: nat, w: Write)
    requires |ds| == |u.orig| && i < |ds| && FieldWrite(w)
    ensures var ds' := SetImg(ds, i, Apply(ds[i].img, w));
      && (Old(u, ds, i) ==> Old(u, ds', i)) && (New(u, ds, i) ==> New(u, ds', i))
      && (DataPart(u.orig[i], u.to, ds[i].img) ==> DataPart(u.orig[i], u.to, ds'[i].img))
      && (IsMarked(ds', i) <==> if w.FlagsAt? then Marked(w.flags) else IsMarked(ds, i))
  {
    FieldWriteKeeps(u.orig[i], ds[i].img, u.to, w);
  }

  /** Changing one delta leaves what is known about the others. */
  lemma OthersKept(u: Setup, ds: seq<DState>, ds': seq<DState>, i: nat)
    requires |ds| == |ds'| == |u.orig| && i < |ds| && forall j :: 0 <= j < |ds| && j != i ==> ds'[j] == ds[j]
    ensures forall j: nat :: j < |ds| && j != i ==>
      && (Old(u, ds', j) <==> Old(u, ds, j)) && (New(u, ds', j) <==> New(u, ds, j))
      && (IsMarked(ds', j) <==> IsMarked(ds, j))
      && (BackedUp(u, ds', j) <==> BackedUp(u, ds, j)) && (Restorable(u, ds', j) <==> Restorable(u, ds, j))
  {
  }

  lemma BackingKeeps(u: Setup, s: State, s': State, i: nat)
    requires Inv(u, s) && s.pc == Backing(i) && ConvertStep(u, s, s')
    ensures Inv(u, s')
  {
    forall j | 0 <= j < |s.ds| ensures Old(u, s'.ds, j) && !IsMarked(s'.ds, j) && (j <= i ==> BackedUp(u, s'.ds, j)) {
      OldIsOriginal(u.orig[j], u.to);
      if j < i { assert BackedUp(u, s.ds, j); }
    }
  }

  lemma MarkingKeeps(u: Setup, s: State, s': State, i: nat)
    requires Inv(u, s) && (s.pc == Using(i) || s.pc == Marking(i)) && ConvertStep(u, s, s')
    ensures Inv(u, s')
  {
    OthersKept(u, s.ds, s'.ds, i);
    FieldStep(u, s.ds, i, if s.pc.Using? then InUseAt(true) else FlagsAt(SetMark(u.orig[i].hdr.flags)));
    forall j | 0 <= j < |s.ds| ensures BackedUp(u, s'.ds, j) && Old(u, s'.ds, j) {
      assert BackedUp(u, s.ds, j) && Old(u, s.ds, j);
    }
    forall j | 0 <= j < |s.ds| ensures IsMarked(s'.ds, j) <==> (j < i || (j == i && s.pc.Marking?)) {
      assert IsMarked(s.ds, j) <==> j < i;
    }
  }

  lemma RewrittenKeeps(u: Setup, s: State, s': State, i: nat, c: Img)
    requires Inv(u, s) && s.pc == Rewriting(i) && s'.ds == SetImg(s.ds, i, c)
    requires RewriteDone(s.ds[i].img, c, u.to) && s'.pc == if i + 1 < |s.ds| then Rewriting(i + 1) else Unmarking(0)
    ensures Inv(u, s')
  {
    OthersKept(u, s.ds, s'.ds, i);
    assert Restorable(u, s.ds, i) && Old(u, s.ds, i);
    RewriteIsNew(u.orig[i], s.ds[i].img, c, u.to);
    assert Restorable(u, s'.ds, i) && New(u, s'.ds, i);
    forall j | 0 <= j < |s.ds|
      ensures Restorable(u, s'.ds, j) && if j < i + 1 then New(u, s'.ds, j) else Old(u, s'.ds, j)
    {
      assert Restorable(u, s.ds, j) && if j < i then New(u, s.ds, j) else Old(u, s.ds, j);
    }
  }

  lemma CrashInRewriting(u: Setup, s: State, s': State, i: nat, c: Img)
    requires Inv(u, s) && s.pc == Rewriting(i) && DataIntact(s.ds[i].img, u.to, c) && s'.ds == SetImg(s.ds, i, c)
    ensures Recoverable(u, s'.ds)
  {
    assert Restorable(u, s.ds, i);
    RewriteTorn(u.orig[i], u.to, s.ds[i].img, c);
    OthersKept(u, s.ds, s'.ds, i);
    forall j | 0 <= j < |s.ds| ensures Restorable(u, s'.ds, j) { assert Restorable(u, s.ds, j); }
  }

  lemma RewritingKeeps(u: Setup, s: State, s': State, i: nat)
    requires Inv(u, s) && s.pc == Rewriting(i) && ConvertStep(u, s, s')
    ensures Inv(u, s')
  {
    var c :| s'.ds == SetImg(s.ds, i, c) &&
      ((RewriteDone(s.ds[i].img, c, u.to) && s'.pc == if i + 1 < |s.ds| then Rewriting(i + 1) else Unmarking(0)) ||
       (DataIntact(s.ds[i].img, u.to, c) && s'.pc == Down));
    if s'.pc == Down { CrashInRewriting(u, s, s', i, c); } else { RewrittenKeeps(u, s, s', i, c); }
  }

  lemma UnmarkingKeeps(u: Setup, s: State, s': State, i: nat)
    requires Inv(u, s) && (s.pc == Unmarking(i) || s.pc == Clearing(i)) && ConvertStep(u, s, s')
    ensures Inv(u, s')
  {
    OthersKept(u, s.ds, s'.ds, i);
    FieldStep(u, s.ds, i, if s.pc.Clearing? then InUseAt(false) else FlagsAt(ClearMark(u.orig[i].hdr.flags)));
    forall j | 0 <= j < |s.ds| ensures BackedUp(u, s'.ds, j) && New(u, s'.ds, j) {
      assert BackedUp(u, s.ds, j) && New(u, s.ds, j);
    }
    forall j | 0 <= j < |s.ds| ensures IsMarked(s'.ds, j) <==> j > i {
      assert IsMarked(s.ds, j) <==> (j > i || (j == i && s.pc.Unmarking?));
    }
  }

  lemma ConvertKeeps(u: Setup, s: State, s': State)
    requires Inv(u, s) && ConvertStep(u, s, s')
    ensures Inv(u, s')
  {
    match s.pc
    case Backing(i) => BackingKeeps(u, s, s', i);
    case Using(i) => MarkingKeeps(u, s, s', i);
    case Marking(i) => MarkingKeeps(u, s, s', i);
    case Rewriting(i) => RewritingKeeps(u, s, s', i);
    case Unmarking(i) => UnmarkingKeeps(u, s, s', i);
    case Clearing(i) => UnmarkingKeeps(u, s, s', i);
    case Dropping(i) =>
      OthersKept(u, s.ds, s'.ds, i);
      forall j | 0 <= j < |s.ds| ensures New(u, s'.ds, j) && !IsMarked(s'.ds, j) {
        assert New(u, s.ds, j) && !IsMarked(s.ds, j);
      }
  }

  lemma WalkingKeeps(u: Setup, s: State, s': State, i: nat)
    requires Inv(u, s) && s.pc == Walking(i) && RecoverStep(u, s, s')
    ensures Inv(u, s') && s'.pc != Down
  {
    var n := |s.ds|;
    var j := if i < n then i else u.base;
    if i < n && (i == u.base || !IsMarked(s.ds, i)) {
      assert Walked(u, s.ds, i + 1);
    } else {
      assert Restorable(u, s.ds, j);
      assert j == u.base ==> Walked(u, s.ds, n);
    }
  }

  lemma RestoringKeeps(u: Setup, s: State, s': State, i: nat)
    requires Inv(u, s) && s.pc.Restoring? && s.pc.i == i && RecoverStep(u, s, s')
    ensures Inv(u, s') && s'.pc != Down
  {
    assert Restorable(u, s.ds, i);
    NeverRefused(u.orig[i], u.to, s.ds[i]);
    var c :| RestoreDone(s.ds[i].img, s.ds[i].backup.value, c) && s'.ds == SetImg(s.ds, i, c);
    RestoreIsOld(u.orig[i], u.to, s.ds[i], c);
    OthersKept(u, s.ds, s'.ds, i);
    assert IsMarked(s'.ds, i) && Old(u, s'.ds, i) && Restorable(u, s'.ds, i);
    forall j | 0 <= j < |s.ds| ensures if IsMarked(s'.ds, j) then Restorable(u, s'.ds, j) else Old(u, s'.ds, j) {
      assert if IsMarked(s.ds, j) then Restorable(u, s.ds, j) else Old(u, s.ds, j);
    }
  }

  lemma ReUnmarkingKeeps(u: Setup, s: State, s': State, i: nat)
    requires Inv(u, s) && s.pc.ReUnmarking? && s.pc.i == i && RecoverStep(u, s, s')
    ensures Inv(u, s')
  {
    FieldStep(u, s.ds, i, FlagsAt(ClearMark(s.pc.flags)));
    OthersKept(u, s.ds, s'.ds, i);
    assert Old(u, s'.ds, i) && !IsMarked(s'.ds, i);
    forall j | 0 <= j < |s.ds| ensures if IsMarked(s'.ds, j) then Restorable(u, s'.ds, j) else Old(u, s'.ds, j) {
      assert if IsMarked(s.ds, j) then Restorable(u, s.ds, j) else Old(u, s.ds, j);
    }
    if i == u.base {
      forall j | 0 <= j < |s.ds| ensures Old(u, s'.ds, j) { assert j != i ==> !IsMarked(s.ds, j); }
    }
  }

  lemma SettledKeeps(u: Setup, s: State, s': State, i: nat)
    requires Inv(u, s) && (s.pc == ReClearing(i) || s.pc == ReDropping(i)) && RecoverStep(u, s, s')
    ensures Inv(u, s')
  {
    OthersKept(u, s.ds, s'.ds, i);
    if s.pc.ReClearing? { FieldStep(u, s.ds, i, InUseAt(false)); }
    assert Old(u, s'.ds, i) && !IsMarked(s'.ds, i);
    if i == u.base {
      forall j | 0 <= j < |s.ds| ensures Old(u, s'.ds, j) { assert Old(u, s.ds, j); }
    } else {
      forall j | 0 <= j < |s.ds| ensures if IsMarked(s'.ds, j) then Restorable(u, s'.ds, j) else Old(u, s'.ds, j) {
        assert if IsMarked(s.ds, j) then Restorable(u, s.ds, j) else Old(u, s.ds, j);
      }
      assert Walked(u, s'.ds, i + 1);
    }
  }

  /** Recovery keeps the invariant and never gives up. */
  lemma RecoverKeeps(u: Setup, s: State, s': State)
    requires Inv(u, s) && RecoverStep(u, s, s')
    ensures Inv(u, s') && s'.pc != Down
  {
    match s.pc
    case Down =>
    case Walking(i) => WalkingKeeps(u, s, s', i);
    case Restoring(i, _) => RestoringKeeps(u, s, s', i);
    case ReUnmarking(i, _) => ReUnmarkingKeeps(u, s, s', i);
    case ReClearing(i) => SettledKeeps(u, s, s', i);
    case ReDropping(i) => SettledKeeps(u, s, s', i);
  }

  lemma StopBacking(u: Setup, s: State)
    requires Inv(u, s) && s.pc.Backing?
    ensures Recoverable(u, s.ds)
  {
    forall j | 0 <= j < |s.ds| ensures Old(u, s.ds, j) && !IsMarked(s.ds, j) { OldIsOriginal(u.orig[j], u.to); }
  }

  lemma StopMarking(u: Setup, s: State)
    requires Inv(u, s) && (s.pc.Using? || s.pc.Marking?)
    ensures Recoverable(u, s.ds)
  {
    forall j | 0 <= j < |s.ds| ensures Old(u, s.ds, j) && (IsMarked(s.ds, j) ==> Restorable(u, s.ds, j)) {
      assert BackedUp(u, s.ds, j) && Old(u, s.ds, j);
    }
  }

  lemma StopUnmarking(u: Setup, s: State)
    requires Inv(u, s) && (s.pc.Unmarking? || s.pc.Clearing?) && u.base == 0
    ensures Recoverable(u, s.ds)
  {
    forall j | 0 <= j < |s.ds| ensures New(u, s.ds, j) && (IsMarked(s.ds, j) ==> Restorable(u, s.ds, j)) {
      assert BackedUp(u, s.ds, j) && New(u, s.ds, j);
    }
  }

  /** With the base as the first image, recovery finds in every state between two steps what it needs to bring the
      contents back. */
  lemma StopSafe(u: Setup, s: State)
    requires Inv(u, s) && (u.base == 0 || (!s.pc.Unmarking? && !s.pc.Clearing?))
    ensures Recoverable(u, s.ds)
  {
    if s.pc.Backing? {
      StopBacking(u, s);
    } else if s.pc.Using? || s.pc.Marking? {
      StopMarking(u, s);
    } else if s.pc.Unmarking? || s.pc.Clearing? {
      StopUnmarking(u, s);
    } else if s.pc.Rewriting? {
      StopRewriting(u, s, s.pc.i);
    } else if s.pc.Dropping? || s.pc.Finished? {
      StopConverted(u, s);
    }
  }

  lemma StopRewriting(u: Setup, s: State, i: nat)
    requires Inv(u, s) && s.pc == Rewriting(i)
    ensures Recoverable(u, s.ds)
  {
    forall j | 0 <= j < |s.ds| ensures Restorable(u, s.ds, j) {
      assert Restorable(u, s.ds, j) && if j < i then New(u, s.ds, j) else Old(u, s.ds, j);
    }
    assert Restorable(u, s.ds, u.base);
  }

  lemma StopConverted(u: Setup, s: State)
    requires Inv(u, s) && (s.pc.Dropping? || s.pc.Finished?)
    ensures Recoverable(u, s.ds)
  {
    assert AllNew(u, s.ds);
    assert New(u, s.ds, u.base) && !IsMarked(s.ds, u.base);
  }

  lemma CrashInBacking(u: Setup, s: State, s': State, i: nat, b: Option<Img>)
    requires Inv(u, s) && s.pc == Backing(i) && s'.ds == SetBackup(s.ds, i, b)
    ensures Recoverable(u, s'.ds)
  {
    forall j | 0 <= j < |s.ds| ensures Old(u, s'.ds, j) && !IsMarked(s'.ds, j) { OldIsOriginal(u.orig[j], u.to); }
  }

  lemma CrashInRestoring(u: Setup, s: State, s': State, i: nat, c: Img)
    requires Inv(u, s) && s.pc.Restoring? && s.pc.i == i && s.ds[i].backup.Some?
    requires RestoreTorn(s.ds[i].img, s.ds[i].backup.value, c) && s'.ds == SetImg(s.ds, i, c)
    ensures Recoverable(u, s'.ds)
  {
    assert Restorable(u, s.ds, i);
    RestoreTornKeeps(u.orig[i], u.to, s.ds[i], c);
    OthersKept(u, s.ds, s'.ds, i);
    assert Restorable(u, s'.ds, i);
    forall j | 0 <= j < |s.ds| ensures if IsMarked(s'.ds, j) then Restorable(u, s'.ds, j) else Old(u, s'.ds, j) {
      assert if IsMarked(s.ds, j) then Restorable(u, s.ds, j) else Old(u, s.ds, j);
    }
  }

  /** A crash around a single-field step leaves what the step found or what it leaves. */
  lemma CrashAfterStep(u: Setup, s: State, m: State)
    requires Inv(u, s) && u.base == 0 && (ConvertStep(u, s, m) || RecoverStep(u, s, m))
    ensures Recoverable(u, m.ds)
  {
    if ConvertStep(u, s, m) { ConvertKeeps(u, s, m); } else { RecoverKeeps(u, s, m); }
    StopSafe(u, m);
  }

  lemma CrashKeeps(u: Setup, s: State, s': State)
    requires Inv(u, s) && CrashStep(u, s, s') && u.base == 0
    ensures Inv(u, s')
  {
    if s'.ds == s.ds {
      StopSafe(u, s);
    } else if s.pc.Backing? {
      var b :| s'.ds == SetBackup(s.ds, s.pc.i, b);
      CrashInBacking(u, s, s', s.pc.i, b);
    } else if s.pc.Rewriting? {
      var c :| DataIntact(s.ds[s.pc.i].img, u.to, c) && s'.ds == SetImg(s.ds, s.pc.i, c);
      CrashInRewriting(u, s, s', s.pc.i, c);
    } else if s.pc.Restoring? {
      var c :| RestoreTorn(s.ds[s.pc.i].img, s.ds[s.pc.i].backup.value, c) && s'.ds == SetImg(s.ds, s.pc.i, c);
      CrashInRestoring(u, s, s', s.pc.i, c);
    } else {
      var m :| (ConvertStep(u, s, m) || RecoverStep(u, s, m)) && s'.ds == m.ds;
      CrashAfterStep(u, s, m);
    }
  }

  // ---------- runs ----------

  ghost predicate Start(u: Setup, s: State) {
    Ready(u) && |s.ds| == |u.orig| && s.pc == Backing(0) && forall j :: 0 <= j < |s.ds| ==> s.ds[j].img == u.orig[j]
  }

  /** `s` can be reached by the converter, with any number of crashes and recoveries. */
  ghost predicate Reachable(u: Setup, s: State) {
    Reached(a => Start(u, a), (a, b) => Step(u, a, b), s)
  }

  /** All deltas have one version, and every cluster of every delta reads as before the conversion. */
  ghost predicate Consistent(u: Setup, ds: seq<DState>) {
    && |ds| == |u.orig|
    && (forall j, k :: 0 <= j < k < |ds| ==> ds[j].img.hdr.version == ds[k].img.hdr.version)
    && (forall j, v: nat :: 0 <= j < |ds| ==> Read(ds[j].img, v) == Read(u.orig[j], v))
  }

  lemma StepKeeps(u: Setup, s: State, s': State)
    requires Inv(u, s) && Step(u, s, s') && u.base == 0
    ensures Inv(u, s')
  {
    if ConvertStep(u, s, s') {
      ConvertKeeps(u, s, s');
    } else if RecoverStep(u, s, s') {
      RecoverKeeps(u, s, s');
    } else {
      CrashKeeps(u, s, s');
    }
  }

  /** With the base as the first image the invariant holds in every reachable state. */
  lemma ReachableInv(u: Setup, s: State)
    requires Reachable(u, s) && u.base == 0
    ensures Inv(u, s) && Ready(u)
  {
    var inv := a => Inv(u, a) && Ready(u);
    forall a, b | inv(a) && Step(u, a, b) ensures inv(b) { StepKeeps(u, a, b); }
    Invariant(a => Start(u, a), (a, b) => Step(u, a, b), inv, s);
  }

  lemma AgreedIsConsistent(u: Setup, ds: seq<DState>)
    requires Ready(u) && |ds| == |u.orig| && (AllOld(u, ds) || AllNew(u, ds))
    ensures Consistent(u, ds)
  {
    forall j, v: nat | 0 <= j < |ds| ensures Read(ds[j].img, v) == Read(u.orig[j], v) {
      if AllOld(u, ds) {
        assert Old(u, ds, j);
        IntactReads(u.orig[j], ds[j].img, v);
      } else {
        assert New(u, ds, j);
      }
    }
    forall j, k | 0 <= j < k < |ds| ensures ds[j].img.hdr.version == ds[k].img.hdr.version {
      if AllOld(u, ds) { assert Old(u, ds, j) && Old(u, ds, k); } else { assert New(u, ds, j) && New(u, ds, k); }
    }
  }

  ghost predicate Completed(s: State) { s.pc == Finished || s.pc == Recovered }

  /** With the base as the first image: whenever a run completes, by conversion or by recovery, after
      whatever crashes, all deltas have one version and the contents are unchanged. */
  lemma CompletedIsConsistent(u: Setup, s: State)
    requires Reachable(u, s) && Completed(s) && u.base == 0
    ensures Consistent(u, s.ds)
  {
    ReachableInv(u, s);
    AgreedIsConsistent(u, s.ds);
  }
}
