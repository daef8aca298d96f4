/** How a conversion ends: when it can, and what it leaves of versions, marks, flags and backups. */
module FmtEnds {
  import opened Image
  import opened Disk
  import opened Convert
  import opened Restore
  import opened FmtProtocol
  import opened FmtBase
  import opened FmtMarks
  import opened Runs
  import opened Wrappers

  // ---------- flags ----------

  /** The flags are those of the original, but for the conversion mark. */
  predicate FlagsOf(o: Img, flags: nat) { flags == if Marked(flags) then SetMark(o.hdr.flags) else o.hdr.flags }

  ghost predicate FlagsSo(u: Setup, s: State) {
    && |s.ds| == |u.orig| && (forall j: nat :: j < |s.ds| ==> FlagsOf(u.orig[j], s.ds[j].img.hdr.flags))
    && match s.pc
       case Restoring(i, flags) => i < |u.orig| ==> FlagsOf(u.orig[i], flags)
       case ReUnmarking(i, flags) => i < |u.orig| ==> FlagsOf(u.orig[i], flags)
       case _ => true
  }

  lemma MarkFlags(o: Img, flags: nat)
    requires !Marked(o.hdr.flags)
    ensures FlagsOf(o, o.hdr.flags) && FlagsOf(o, SetMark(o.hdr.flags)) && FlagsOf(o, ClearMark(o.hdr.flags))
    ensures FlagsOf(o, flags) ==> FlagsOf(o, ClearMark(flags)) && ClearMark(flags) == o.hdr.flags
  {
  }

  lemma FlagsConvert(u: Setup, s: State, s': State)
    requires Inv(u, s) && FlagsSo(u, s) && ConvertStep(u, s, s')
    ensures FlagsSo(u, s')
  {
    forall j: nat | j < |s.ds| ensures FlagsOf(u.orig[j], s'.ds[j].img.hdr.flags) {
      assert ReadyImage(u.orig[j], u.to);
      MarkFlags(u.orig[j], 0);
      assert FlagsOf(u.orig[j], s.ds[j].img.hdr.flags);
    }
  }

  lemma FlagsRestored(u: Setup, s: State, i: nat)
    requires Inv(u, s) && s.pc.Restoring? && s.pc.i == i
    ensures i < |u.orig| && s.ds[i].backup == Some(BackupOf(u.orig[i]))
    ensures FlagsOf(u.orig[i], RestoredHeader(s.ds[i].backup.value).flags)
  {
    assert Restorable(u, s.ds, i) && ReadyImage(u.orig[i], u.to);
    MarkFlags(u.orig[i], 0);
  }

  lemma FlagsRecover(u: Setup, s: State, s': State)
    requires Inv(u, s) && FlagsSo(u, s) && RecoverStep(u, s, s')
    ensures FlagsSo(u, s')
  {
    if s.pc.Restoring? { FlagsRestored(u, s, s.pc.i); }
    forall j: nat | j < |s.ds| ensures FlagsOf(u.orig[j], s'.ds[j].img.hdr.flags) {
      assert ReadyImage(u.orig[j], u.to) && FlagsOf(u.orig[j], s.ds[j].img.hdr.flags);
      if s.pc.ReUnmarking? { MarkFlags(u.orig[j], s.pc.flags); }
    }
  }

  lemma FlagsCrash(u: Setup, s: State, s': State)
    requires Inv(u, s) && FlagsSo(u, s) && CrashStep(u, s, s')
    ensures FlagsSo(u, s')
  {
    if s'.ds != s.ds && !s.pc.Backing? && !s.pc.Rewriting? && !s.pc.Restoring? {
      var m :| (ConvertStep(u, s, m) || RecoverStep(u, s, m)) && s'.ds == m.ds;
      if ConvertStep(u, s, m) { FlagsConvert(u, s, m); } else { FlagsRecover(u, s, m); }
    } else if s.pc.Restoring? {
      FlagsRestored(u, s, s.pc.i);
    }
  }

  lemma FlagsStep(u: Setup, s: State, s': State)
    requires Inv(u, s) && FlagsSo(u, s) && Step(u, s, s')
    ensures FlagsSo(u, s')
  {
    if ConvertStep(u, s, s') { FlagsConvert(u, s, s'); }
    else if RecoverStep(u, s, s') { FlagsRecover(u, s, s'); }
    else { FlagsCrash(u, s, s'); }
  }

  /** With the base as the first image, after any crashes and recoveries: no delta's flags are other than they were, but
      for the conversion mark. */
  lemma FlagsKept(u: Setup, s: State)
    requires Reachable(u, s) && u.base == 0
    ensures |s.ds| == |u.orig| && forall j: nat :: j < |s.ds| ==> FlagsOf(u.orig[j], s.ds[j].img.hdr.flags)
  {
    var inv := a => Inv(u, a) && FlagsSo(u, a);
    forall a | Start(u, a) ensures inv(a) { FlagsStart(u, a); }
    forall a, b | inv(a) && Step(u, a, b) ensures inv(b) {
      StepKeeps(u, a, b);
      FlagsStep(u, a, b);
    }
    Invariant(a => Start(u, a), (a, b) => Step(u, a, b), inv, s);
  }

  lemma FlagsStart(u: Setup, s: State)
    requires Start(u, s)
    ensures Inv(u, s) && FlagsSo(u, s)
  {
    forall j: nat | j < |s.ds| ensures FlagsOf(u.orig[j], s.ds[j].img.hdr.flags) {
      assert ReadyImage(u.orig[j], u.to);
      MarkFlags(u.orig[j], 0);
    }
  }

  // ---------- a conversion that is finished ----------

  /** What the converter has dropped already, whatever happened before. */
  ghost predicate Dropped(s: State) {
    match s.pc
    case Unmarking(i) => IdleBelow(s.ds, i)
    case Clearing(i) => IdleBelow(s.ds, i)
    case Dropping(i) => IdleBelow(s.ds, |s.ds|) && NoBackupBelow(s.ds, i)
    case Finished => IdleBelow(s.ds, |s.ds|) && NoBackupBelow(s.ds, |s.ds|)
    case _ => true
  }

  predicate IdleBelow(ds: seq<DState>, n: nat) { forall j :: 0 <= j < n && j < |ds| ==> !ds[j].img.hdr.inUse }
  predicate NoBackupBelow(ds: seq<DState>, n: nat) { forall j :: 0 <= j < n && j < |ds| ==> ds[j].backup == None }

  lemma DroppedStep(u: Setup, s: State, s': State)
    requires Dropped(s) && Step(u, s, s')
    ensures Dropped(s')
  {
  }

  /** A finished conversion, whatever crashes and recoveries came before it: every delta has the new version, its old
      flags, is not in use, has no backup, and reads as before. */
  lemma FinishedIsConverted(u: Setup, s: State)
    requires Reachable(u, s) && s.pc == Finished && u.base == 0
    ensures Consistent(u, s.ds)
    ensures forall j: nat :: j < |s.ds| ==>
      s.ds[j].img.hdr.version == u.to && s.ds[j].img.hdr.flags == u.orig[j].hdr.flags && Clean(s.ds[j]) &&
      s.ds[j].backup == None
  {
    CompletedIsConsistent(u, s);
    FlagsKept(u, s);
    ReachableInv(u, s);
    var inv := a => Dropped(a);
    forall a, b | inv(a) && Step(u, a, b) ensures inv(b) { DroppedStep(u, a, b); }
    Invariant(a => Start(u, a), (a, b) => Step(u, a, b), inv, s);
    forall j: nat | j < |s.ds|
      ensures s.ds[j].img.hdr.version == u.to && !IsMarked(s.ds, j)
    {
      assert New(u, s.ds, j) && !IsMarked(s.ds, j);
    }
  }

  // ---------- when the converter comes to the end ----------

  ghost predicate Allowed(u: Setup, j: nat)
    requires j < |u.orig|
  {
    var o := u.orig[j];
    forall v: nat :: o.hdr.blocksize > 0 && SlotBlock(v, o.hdr.Words()) < o.hdr.L1() ==>
      EntryAllowed(Slot(o, v), o.hdr.blocksize, o.hdr.version, u.to)
  }

  /** The deltas rewritten so far passed the check. */
  ghost predicate PassedSo(u: Setup, s: State) {
    var n := match s.pc
      case Rewriting(i) => i
      case Unmarking(_) => |u.orig|
      case Clearing(_) => |u.orig|
      case Dropping(_) => |u.orig|
      case Finished => |u.orig|
      case _ => 0;
    forall j :: 0 <= j < n && j < |u.orig| ==> Allowed(u, j)
  }

  lemma RewrittenAllowed(u: Setup, s: State, i: nat, c: Img)
    requires Inv(u, s) && s.pc == Rewriting(i) && RewriteDone(s.ds[i].img, c, u.to)
    ensures Allowed(u, i)
  {
    assert Old(u, s.ds, i);
    OldValid(u.orig[i], u.to, s.ds[i].img);
  }

  lemma PassedStep(u: Setup, s: State, s': State)
    requires Inv(u, s) && PassedSo(u, s) && ConvertStep(u, s, s')
    ensures PassedSo(u, s')
  {
    if s.pc.Rewriting? && s'.pc != Down {
      var i := s.pc.i;
      var c :| s'.ds == SetImg(s.ds, i, c) &&
        ((RewriteDone(s.ds[i].img, c, u.to) && s'.pc == if i + 1 < |s.ds| then Rewriting(i + 1) else Unmarking(0)) ||
         (DataIntact(s.ds[i].img, u.to, c) && s'.pc == Down));
      RewrittenAllowed(u, s, i, c);
    }
  }

  lemma FinishedAllowed(u: Setup, s: State)
    requires FmtMarks.Converting(u, s) && s.pc == Finished
    ensures AllAllowed(u)
  {
    var inv := a => Inv(u, a) && PassedSo(u, a);
    forall a, b | inv(a) && ConvertStep(u, a, b) ensures inv(b) {
      ConvertKeeps(u, a, b);
      PassedStep(u, a, b);
    }
    Invariant(a => Start(u, a), (a, b) => ConvertStep(u, a, b), inv, s);
    forall j, v: nat | 0 <= j < |u.orig| && u.orig[j].hdr.blocksize > 0 &&
      SlotBlock(v, u.orig[j].hdr.Words()) < u.orig[j].hdr.L1()
      ensures EntryAllowed(Slot(u.orig[j], v), u.orig[j].hdr.blocksize, u.orig[j].hdr.version, u.to)
    {
      assert Allowed(u, j);
    }
  }

  /** Steps left to the end. */
  function ToEnd(pc: Pc, n: nat): int {
    match pc
    case Backing(i) => 7 * n + 6 - i
    case Using(i) => 6 * n + 5 - 2 * i
    case Marking(i) => 6 * n + 4 - 2 * i
    case Rewriting(i) => 4 * n + 3 - i
    case Unmarking(i) => 3 * n + 2 - 2 * i
    case Clearing(i) => 3 * n + 1 - 2 * i
    case Dropping(i) => n - i
    case _ => 0
  }

  predicate Working(pc: Pc) {
    pc.Backing? || pc.Using? || pc.Marking? || pc.Rewriting? || pc.Unmarking? || pc.Clearing? || pc.Dropping?
  }

  lemma OneStep(u: Setup, s: State) returns (s': State)
    requires Inv(u, s) && AllAllowed(u) && Working(s.pc)
    ensures ConvertStep(u, s, s') && Inv(u, s') && (Working(s'.pc) || s'.pc == Finished)
    ensures Working(s'.pc) ==> 0 <= ToEnd(s'.pc, |u.orig|) < ToEnd(s.pc, |u.orig|)
  {
    if s.pc.Dropping? {
      var i := s.pc.i;
      s' := State(if i + 1 < |s.ds| then Dropping(i + 1) else Finished, SetBackup(s.ds, i, None));
      ConvertKeeps(u, s, s');
    } else {
      s' := ConvertProgress(u, s);
    }
  }

  lemma {:induction false} Finishes(u: Setup, s: State) returns (r: State)
    requires FmtMarks.Converting(u, s) && Inv(u, s) && AllAllowed(u) && Working(s.pc)
    ensures FmtMarks.Converting(u, r) && r.pc == Finished
    decreases ToEnd(s.pc, |u.orig|)
  {
    var s' := OneStep(u, s);
    ReachedStep(a => Start(u, a), (a, b) => ConvertStep(u, a, b), s, s');
    if s'.pc == Finished { r := s'; } else { r := Finishes(u, s'); }
  }

  /** A conversion that is not interrupted can come to its end exactly if every entry passes the size check. */
  lemma FinishesExact(u: Setup)
    requires Ready(u)
    ensures (exists s :: FmtMarks.Converting(u, s) && s.pc == Finished) <==> AllAllowed(u)
  {
    if AllAllowed(u) {
      var s := StartReachable(u);
      ReachedStart(a => Start(u, a), (a, b) => ConvertStep(u, a, b), s);
      var r := Finishes(u, s);
    }
    forall s | FmtMarks.Converting(u, s) && s.pc == Finished ensures AllAllowed(u) { FinishedAllowed(u, s); }
  }
}
