/** Recovery can always complete; and the base image must be converted and unmarked first. */
module FmtBase {
  import opened Image
  import opened Disk
  import opened Convert
  import opened Restore
  import opened FmtProtocol
  import opened Runs
  import opened Wrappers

  // ---------- the results of the two long steps, computed ----------

  function ConvertTable(img: Img, b: nat, to: Version): Block
    requires img.hdr.blocksize > 0 && b < |img.blocks|
  {
    seq(|img.blocks[b]|, o requires 0 <= o < |img.blocks[b]| =>
      if b == 0 && o < MAP_OFFSET then img.blocks[b][o]
      else ConvertEntry(img.blocks[b][o], img.hdr.blocksize, img.hdr.version, to))
  }

  function ConvertImg(img: Img, to: Version): Img
    requires img.hdr.blocksize > 0
  {
    Img(img.hdr.(version := to), seq(|img.blocks|, b requires 0 <= b < |img.blocks| =>
      if b < img.hdr.L1() then ConvertTable(img, b, to) else img.blocks[b]))
  }

  lemma ConvertImgDone(img: Img, to: Version)
    requires Valid(img)
    requires forall v: nat :: SlotBlock(v, img.hdr.Words()) < img.hdr.L1() ==>
      EntryAllowed(Slot(img, v), img.hdr.blocksize, img.hdr.version, to)
    ensures RewriteDone(img, ConvertImg(img, to), to)
  {
    var c, n := ConvertImg(img, to), img.hdr.Words();
    forall v: nat | SlotBlock(v, n) < img.hdr.L1()
      ensures Slot(c, v) == ConvertEntry(Slot(img, v), img.hdr.blocksize, img.hdr.version, to)
    {
      SlotPosition(v, n);
      assert SlotBlock(v, n) == 0 ==> SlotWord(v, n) >= MAP_OFFSET;
    }
  }

  function RestoreImg(img: Img, saved: Img): Img
    requires |saved.blocks| <= |img.blocks|
  {
    Img(RestoredHeader(saved), saved.blocks + img.blocks[|saved.blocks|..])
  }

  lemma RestoreImgDone(o: Img, to: Version, d: DState)
    requires Valid(o) && o.hdr.L1() > 0 && DataPart(o, to, d.img) && d.backup == Some(BackupOf(o))
    ensures RestoreDone(d.img, BackupOf(o), RestoreImg(d.img, BackupOf(o)))
  {
  }

  // ---------- reachability ----------

  lemma ReachStep(u: Setup, s: State, s': State)
    requires Reachable(u, s) && Step(u, s, s')
    ensures Reachable(u, s')
  {
    ReachedStep(a => Start(u, a), (a, b) => Step(u, a, b), s, s');
  }

  ghost predicate AllAllowed(u: Setup) {
    forall j, v: nat ::
      0 <= j < |u.orig| && u.orig[j].hdr.blocksize > 0 && SlotBlock(v, u.orig[j].hdr.Words()) < u.orig[j].hdr.L1() ==>
      EntryAllowed(Slot(u.orig[j], v), u.orig[j].hdr.blocksize, u.orig[j].hdr.version, u.to)
  }

  /** What the converter does next when nothing goes wrong. */
  function NextState(u: Setup, s: State): State
    requires |s.ds| == |u.orig| && forall j :: 0 <= j < |s.ds| ==> s.ds[j].img.hdr.blocksize > 0
    requires s.pc.Backing? || s.pc.Using? || s.pc.Marking? || s.pc.Rewriting? || s.pc.Unmarking? || s.pc.Clearing?
    requires s.pc.i < |s.ds| && s.ds[s.pc.i].img.hdr.L1() <= |s.ds[s.pc.i].img.blocks|
  {
    var n, i, img := |s.ds|, s.pc.i, s.ds[s.pc.i].img;
    match s.pc
    case Backing(_) => State(if i + 1 < n then Backing(i + 1) else Using(0), SetBackup(s.ds, i, Some(BackupOf(img))))
    case Using(_) => State(Marking(i), SetImg(s.ds, i, Apply(img, InUseAt(true))))
    case Marking(_) =>
      State(if i + 1 < n then Using(i + 1) else Rewriting(0),
        SetImg(s.ds, i, Apply(img, FlagsAt(SetMark(u.orig[i].hdr.flags)))))
    case Rewriting(_) =>
      State(if i + 1 < n then Rewriting(i + 1) else Unmarking(0), SetImg(s.ds, i, ConvertImg(img, u.to)))
    case Unmarking(_) => State(Clearing(i), SetImg(s.ds, i, Apply(img, FlagsAt(ClearMark(u.orig[i].hdr.flags)))))
    case Clearing(_) =>
      State(if i + 1 < n then Unmarking(i + 1) else Dropping(0), SetImg(s.ds, i, Apply(img, InUseAt(false))))
  }

  lemma ShapesKnown(u: Setup, s: State)
    requires Inv(u, s)
    requires (s.pc.Backing? || s.pc.Using? || s.pc.Marking? || s.pc.Rewriting? || s.pc.Unmarking? || s.pc.Clearing?)
    ensures forall j :: 0 <= j < |s.ds| ==> s.ds[j].img.hdr.blocksize > 0
    ensures s.pc.i < |s.ds| && s.ds[s.pc.i].img.hdr.L1() <= |s.ds[s.pc.i].img.blocks|
  {
    forall j | 0 <= j < |s.ds| ensures DataPart(u.orig[j], u.to, s.ds[j].img) {
      OldIsOriginal(u.orig[j], u.to);
      if s.pc.Using? || s.pc.Marking? || (s.pc.Rewriting? && j >= s.pc.i) { assert Old(u, s.ds, j); }
      if s.pc.Unmarking? || s.pc.Clearing? || (s.pc.Rewriting? && j < s.pc.i) { assert New(u, s.ds, j); }
    }
  }

  lemma RewritingProgress(u: Setup, s: State, i: nat)
    requires Inv(u, s) && AllAllowed(u) && s.pc == Rewriting(i)
    ensures s.ds[i].img.hdr.blocksize > 0 && RewriteDone(s.ds[i].img, ConvertImg(s.ds[i].img, u.to), u.to)
  {
    assert Old(u, s.ds, i);
    OldValid(u.orig[i], u.to, s.ds[i].img);
    ConvertImgDone(s.ds[i].img, u.to);
  }

  /** The converter can take its next step. */
  lemma ConvertProgress(u: Setup, s: State) returns (s': State)
    requires Inv(u, s) && AllAllowed(u)
    requires s.pc.Backing? || s.pc.Using? || s.pc.Marking? || s.pc.Rewriting? || s.pc.Unmarking? || s.pc.Clearing?
    ensures (forall j :: 0 <= j < |s.ds| ==> s.ds[j].img.hdr.blocksize > 0)
    ensures s.pc.i < |s.ds| && s.ds[s.pc.i].img.hdr.L1() <= |s.ds[s.pc.i].img.blocks|
    ensures s' == NextState(u, s) && ConvertStep(u, s, s') && Inv(u, s')
  {
    ShapesKnown(u, s);
    s' := NextState(u, s);
    if s.pc.Rewriting? {
      RewritingProgress(u, s, s.pc.i);
      var c := ConvertImg(s.ds[s.pc.i].img, u.to);
      assert s'.ds == SetImg(s.ds, s.pc.i, c);
    }
    ConvertKeeps(u, s, s');
  }

  /** Steps left until the first delta is unmarked and clear. */
  function Distance(pc: Pc, n: nat): int {
    match pc
    case Backing(i) => 4 * n + 2 - i
    case Using(i) => 3 * n + 2 - 2 * i
    case Marking(i) => 3 * n + 1 - 2 * i
    case Rewriting(i) => n + 2 - i
    case Unmarking(i) => if i == 0 then 2 else 0
    case Clearing(i) => 1
    case _ => 0
  }

  lemma {:induction false} ReachUnmarked(u: Setup, s: State) returns (r: State)
    requires Reachable(u, s) && Inv(u, s) && AllAllowed(u) && |u.orig| >= 2
    requires s.pc.Backing? || s.pc.Using? || s.pc.Marking? || s.pc.Rewriting? || s.pc == Unmarking(0) ||
      s.pc == Clearing(0) || s.pc == Unmarking(1)
    ensures Reachable(u, r) && Inv(u, r) && r.pc == Unmarking(1)
    decreases Distance(s.pc, |u.orig|)
  {
    if s.pc == Unmarking(1) {
      r := s;
    } else {
      var s' := ConvertProgress(u, s);
      ReachStep(u, s, s');
      r := ReachUnmarked(u, s');
    }
  }

  // ---------- recovery completes ----------

  predicate Recovering(pc: Pc) {
    pc.Walking? || pc.Restoring? || pc.ReUnmarking? || pc.ReClearing? || pc.ReDropping?
  }

  /** Recovery can take its next step, whatever the backups and images have become. */
  lemma RecoverProgress(u: Setup, s: State) returns (s': State)
    requires Inv(u, s) && Recovering(s.pc)
    ensures RecoverStep(u, s, s') && Inv(u, s')
  {
    var n := |s.ds|;
    match s.pc
    case Walking(i) =>
      var j := if i < n then i else u.base;
      s' := State(if i < n && (i == u.base || !Marked(s.ds[i].img.hdr.flags)) then Walking(i + 1)
                  else if s.ds[j].backup.None? then Down else Restoring(j, s.ds[j].img.hdr.flags), s.ds);
      RecoverKeeps(u, s, s');
    case Restoring(i, flags) =>
      assert Restorable(u, s.ds, i);
      NeverRefused(u.orig[i], u.to, s.ds[i]);
      RestoreImgDone(u.orig[i], u.to, s.ds[i]);
      s' := State(ReUnmarking(i, flags), SetImg(s.ds, i, RestoreImg(s.ds[i].img, s.ds[i].backup.value)));
      RecoverKeeps(u, s, s');
    case ReUnmarking(i, flags) =>
      s' := State(ReClearing(i), SetImg(s.ds, i, Apply(s.ds[i].img, FlagsAt(ClearMark(flags)))));
      RecoverKeeps(u, s, s');
    case ReClearing(i) =>
      s' := State(ReDropping(i), SetImg(s.ds, i, Apply(s.ds[i].img, InUseAt(false))));
      RecoverKeeps(u, s, s');
    case ReDropping(i) =>
      s' := State(After(u, n, i), SetBackup(s.ds, i, None));
      RecoverKeeps(u, s, s');
  }

  /** Recovery steps left. */
  function StepsLeft(pc: Pc, n: nat, base: nat): int {
    match pc
    case Walking(i) => 5 * (n - i) + 5
    case Restoring(i, _) => if i == base then 4 else 5 * (n - i) + 4
    case ReUnmarking(i, _) => if i == base then 3 else 5 * (n - i) + 3
    case ReClearing(i) => if i == base then 2 else 5 * (n - i) + 2
    case ReDropping(i) => if i == base then 1 else 5 * (n - i) + 1
    case _ => 0
  }

  /** Each step of recovery brings the end nearer, and the end is reached with everything restored. */
  lemma StepsDecrease(u: Setup, s: State, s': State)
    requires Inv(u, s) && Recovering(s.pc) && RecoverStep(u, s, s') && Inv(u, s')
    ensures Recovering(s'.pc) ==> 0 <= StepsLeft(s'.pc, |s'.ds|, u.base) < StepsLeft(s.pc, |s.ds|, u.base)
    ensures Recovering(s'.pc) || (s'.pc == Recovered && AllOld(u, s'.ds))
  {
    RecoverKeeps(u, s, s');
    if s.pc.ReDropping? {
      OthersKept(u, s.ds, s'.ds, s.pc.i);
      if s.pc.i == u.base {
        forall j | 0 <= j < |s.ds| ensures Old(u, s'.ds, j) { assert Old(u, s.ds, j); }
      }
    }
  }

  /** From any recoverable state, recovery without further crashes completes with the contents of every delta restored.
      `u` describes what recovery restores to; `w` is the run it belongs to. */
  lemma {:induction false} RecoverCompletes(w: Setup, u: Setup, s: State) returns (r: State)
    requires w.base == u.base && w.to == u.to && Reachable(w, s) && Inv(u, s) && Recovering(s.pc)
    ensures Reachable(w, r) && r.pc == Recovered && |r.ds| == |u.orig| && AllOld(u, r.ds)
    decreases StepsLeft(s.pc, |s.ds|, u.base)
  {
    var s' := RecoverProgress(u, s);
    RecoverSameBase(w, u, s, s');
    ReachStep(w, s, s');
    StepsDecrease(u, s, s');
    if s'.pc == Recovered {
      r := s';
    } else {
      r := RecoverCompletes(w, u, s');
    }
  }

  /** Recovery looks at nothing of the setup but the place of the base. */
  lemma RecoverSameBase(w: Setup, u: Setup, s: State, s': State)
    requires w.base == u.base && RecoverStep(u, s, s')
    ensures Step(w, s, s')
  {
    assert RecoverStep(w, s, s');
  }

  // ---------- the order of the images ----------

  /** After the first delta was converted and unmarked, what recovery will restore: that delta as it is
      now, the others as they were. */
  lemma AfterFirstUnmark(u: Setup, s: State, w: Setup)
    requires Inv(u, s) && s.pc == Unmarking(1) && |u.orig| >= 2 && u.base != 0
    requires w == u.(orig := u.orig[0 := s.ds[0].img])
    ensures Inv(w, State(Walking(0), s.ds)) && s.ds[0].img.hdr.version == u.to && IsMarked(s.ds, u.base)
  {
    forall j | 0 <= j < |s.ds| ensures BackedUp(u, s.ds, j) && New(u, s.ds, j) && (IsMarked(s.ds, j) <==> j >= 1) { }
    assert New(u, s.ds, 0) && !IsMarked(s.ds, 0);
    OldIsOriginal(s.ds[0].img, u.to);
    assert ReadyImage(s.ds[0].img, u.to);
    assert IsMarked(s.ds, w.base);
    forall j | 0 <= j < |s.ds| ensures if IsMarked(s.ds, j) then Restorable(w, s.ds, j) else Old(w, s.ds, j) {
      assert BackedUp(u, s.ds, j) && New(u, s.ds, j);
    }
  }

  lemma StartReachable(u: Setup) returns (s: State)
    requires Ready(u)
    ensures Reachable(u, s) && Inv(u, s) && s.pc == Backing(0)
  {
    s := State(Backing(0), seq(|u.orig|, j requires 0 <= j < |u.orig| => DState(u.orig[j], None)));
    ReachedStart(a => Start(u, a), (a, b) => Step(u, a, b), s);
  }

  lemma CrashAndOpen(u: Setup, s: State) returns (r: State)
    requires Reachable(u, s) && Inv(u, s) && s.pc == Unmarking(1) && u.base < |s.ds| && IsMarked(s.ds, u.base)
    ensures r == State(Walking(0), s.ds) && Reachable(u, r)
  {
    ReachStep(u, s, State(Down, s.ds));
    r := State(Walking(0), s.ds);
    ReachStep(u, State(Down, s.ds), r);
  }

  /** When the base is not the first image, a crash after the first image was unmarked makes recovery
      return a stack of two versions. */
  lemma WrongBase(u: Setup) returns (s: State)
    requires Ready(u) && AllAllowed(u) && |u.orig| >= 2 && u.base != 0 && u.to != u.orig[0].hdr.version
    ensures Reachable(u, s) && Completed(s) && !Consistent(u, s.ds)
  {
    var s1 := StartReachable(u);
    s1 := ReachUnmarked(u, s1);
    var w := u.(orig := u.orig[0 := s1.ds[0].img]);
    AfterFirstUnmark(u, s1, w);
    var s2 := CrashAndOpen(u, s1);
    s := RecoverCompletes(u, w, s2);
    assert Old(w, s.ds, 0) && Old(w, s.ds, u.base);
    assert s.ds[0].img.hdr.version != s.ds[u.base].img.hdr.version;
  }

  /** The whole operation is safe against crashes exactly when the base is the first image. */
  lemma BaseMustComeFirst(u: Setup)
    requires Ready(u) && AllAllowed(u) && |u.orig| >= 2 && u.to != u.orig[0].hdr.version
    ensures (forall s :: Reachable(u, s) && Completed(s) ==> Consistent(u, s.ds)) <==> u.base == 0
  {
    if u.base == 0 {
      forall s | Reachable(u, s) && Completed(s) ensures Consistent(u, s.ds) { CompletedIsConsistent(u, s); }
    } else {
      var s := WrongBase(u);
    }
  }
}
