/** What recovery from an interrupted conversion leaves of the conversion marks and in-use fields of the deltas. The
    contents are `FmtProtocol`'s concern; here it is whether the images can be mounted afterwards. */
module FmtMarks {
  import opened Image
  import opened Disk
  import opened Convert
  import opened Restore
  import opened FmtProtocol
  import opened FmtBase
  import opened Runs

  /** Neither marked nor in use: such an image is mounted without a check. */
  predicate Clean(d: DState) { !Marked(d.img.hdr.flags) && !d.img.hdr.inUse }

  /** Marked and in use: `ploop_check`, and so mounting, refuses such an image. */
  predicate Refused(d: DState) { Marked(d.img.hdr.flags) && d.img.hdr.inUse }

  /** `r` is an end of recovery from `s` without further crashes. */
  ghost predicate Recovers(u: Setup, s: State, r: State) {
    Reached(a => a == s, (a, b) => RecoverStep(u, a, b), r) && r.pc == Recovered
  }

  // ---------- what recovery does to the marks ----------

  /** Recovery has dealt with delta `j` before it comes to `pc`. */
  predicate Handled(u: Setup, pc: Pc, j: nat) {
    match pc
    case Walking(i) => j < i && j != u.base
    case Restoring(i, _) => HandledAt(u, i, j)
    case ReUnmarking(i, _) => HandledAt(u, i, j)
    case ReClearing(i) => HandledAt(u, i, j)
    case ReDropping(i) => HandledAt(u, i, j)
    case _ => true
  }

  predicate HandledAt(u: Setup, i: nat, j: nat) { j != u.base && (i == u.base || j < i) }

  /** The delta recovery works on. */
  predicate Current(pc: Pc, j: nat) {
    (pc.Restoring? || pc.ReUnmarking? || pc.ReClearing? || pc.ReDropping?) && pc.i == j
  }

  /** Delta `j` in the middle of recovery, if recovery found it marked. */
  predicate Advanced(u: Setup, d0: DState, d: DState, pc: Pc, j: nat) {
    if Current(pc, j) then
      (pc.ReClearing? || pc.ReDropping? ==> !Marked(d.img.hdr.flags)) && (pc.ReDropping? ==> !d.img.hdr.inUse)
    else if Handled(u, pc, j) then Clean(d)
    else d == d0
  }

  predicate AdvancedOrKept(u: Setup, d0: DState, d: DState, pc: Pc, j: nat) {
    if Marked(d0.img.hdr.flags) then Advanced(u, d0, d, pc, j) else d == d0 && !Current(pc, j)
  }

  /** Recovery from the deltas `ds0` has come to `s`. */
  ghost predicate Track(u: Setup, ds0: seq<DState>, s: State) {
    && |s.ds| == |ds0| && u.base < |ds0|
    && match s.pc
       case Down => s.ds == ds0
       case Recovered => Left(u, ds0, s.ds)
       case _ => Recovering(s.pc) && IsMarked(ds0, u.base) && AllAdvanced(u, ds0, s)
  }

  ghost predicate AllAdvanced(u: Setup, ds0: seq<DState>, s: State)
    requires |s.ds| == |ds0|
  {
    forall j: nat :: j < |ds0| ==> AdvancedOrKept(u, ds0[j], s.ds[j], s.pc, j)
  }

  /** The deltas after recovery: if the base was marked, the marked ones are clean and the others untouched; otherwise
      all are untouched. */
  ghost predicate Left(u: Setup, ds0: seq<DState>, ds: seq<DState>)
    requires u.base < |ds0|
  {
    if !IsMarked(ds0, u.base) then ds == ds0
    else
      |ds| == |ds0| && forall j: nat :: j < |ds0| ==> if IsMarked(ds0, j) then Clean(ds[j]) else ds[j] == ds0[j]
  }

  lemma TrackWalking(u: Setup, ds0: seq<DState>, s: State, s': State, i: nat)
    requires Inv(u, s) && Track(u, ds0, s) && s.pc == Walking(i) && RecoverStep(u, s, s')
    ensures Track(u, ds0, s')
  {
    RecoverKeeps(u, s, s');
    forall j: nat | j < |ds0| ensures AdvancedOrKept(u, ds0[j], s'.ds[j], s'.pc, j) {
      assert AdvancedOrKept(u, ds0[j], s.ds[j], s.pc, j);
    }
  }

  lemma TrackRestoring(u: Setup, ds0: seq<DState>, s: State, s': State)
    requires Inv(u, s) && Track(u, ds0, s) && (s.pc.Restoring? || s.pc.ReUnmarking? || s.pc.ReClearing?)
    requires RecoverStep(u, s, s')
    ensures Track(u, ds0, s')
  {
    RecoverKeeps(u, s, s');
    forall j: nat | j < |ds0| ensures AdvancedOrKept(u, ds0[j], s'.ds[j], s'.pc, j) {
      assert AdvancedOrKept(u, ds0[j], s.ds[j], s.pc, j);
    }
  }

  lemma TrackDropping(u: Setup, ds0: seq<DState>, s: State, s': State, i: nat)
    requires Inv(u, s) && Track(u, ds0, s) && s.pc == ReDropping(i) && RecoverStep(u, s, s')
    ensures Track(u, ds0, s')
  {
    forall j: nat | j < |ds0|
      ensures AdvancedOrKept(u, ds0[j], s'.ds[j], s'.pc, j)
      ensures i == u.base ==> if IsMarked(ds0, j) then Clean(s'.ds[j]) else s'.ds[j] == ds0[j]
    {
      assert AdvancedOrKept(u, ds0[j], s.ds[j], s.pc, j);
    }
  }

  lemma TrackStep(u: Setup, ds0: seq<DState>, s: State, s': State)
    requires Inv(u, s) && Track(u, ds0, s) && RecoverStep(u, s, s')
    ensures Track(u, ds0, s')
  {
    match s.pc
    case Down => TrackStart(u, ds0, s, s');
    case Walking(i) => TrackWalking(u, ds0, s, s', i);
    case Restoring(_, _) => TrackRestoring(u, ds0, s, s');
    case ReUnmarking(_, _) => TrackRestoring(u, ds0, s, s');
    case ReClearing(_) => TrackRestoring(u, ds0, s, s');
    case ReDropping(i) => TrackDropping(u, ds0, s, s', i);
  }

  lemma TrackStart(u: Setup, ds0: seq<DState>, s: State, s': State)
    requires Track(u, ds0, s) && s.pc == Down && RecoverStep(u, s, s')
    ensures Track(u, ds0, s')
  {
  }

  /** Recovery that ends leaves exactly this. */
  lemma RecoveryLeaves(u: Setup, s: State, r: State)
    requires Inv(u, s) && s.pc == Down && Recovers(u, s, r)
    ensures Left(u, s.ds, r.ds)
  {
    TrackHolds(u, s, r);
  }

  lemma TrackHolds(u: Setup, s: State, r: State)
    requires Inv(u, s) && Track(u, s.ds, s) && Reached(a => a == s, (a, b) => RecoverStep(u, a, b), r)
    ensures Track(u, s.ds, r)
  {
    var inv := a => Inv(u, a) && Track(u, s.ds, a);
    forall a, b | inv(a) && RecoverStep(u, a, b) ensures inv(b) {
      TrackStep(u, s.ds, a, b);
      RecoverKeeps(u, a, b);
    }
    Invariant(a => a == s, (a, b) => RecoverStep(u, a, b), inv, r);
  }

  lemma {:induction false} RecoveryGoesOn(u: Setup, s: State, p: State) returns (r: State)
    requires Inv(u, p) && Recovering(p.pc) && Reached(a => a == s, (a, b) => RecoverStep(u, a, b), p)
    ensures Recovers(u, s, r)
    decreases StepsLeft(p.pc, |p.ds|, u.base)
  {
    var p' := RecoverProgress(u, p);
    ReachedStep(a => a == s, (a, b) => RecoverStep(u, a, b), p, p');
    StepsDecrease(u, p, p');
    if p'.pc == Recovered { r := p'; } else { r := RecoveryGoesOn(u, s, p'); }
  }

  /** And it does end. */
  lemma RecoveryEnds(u: Setup, s: State) returns (r: State)
    requires Inv(u, s) && s.pc == Down
    ensures Recovers(u, s, r)
  {
    var p := State(if Marked(s.ds[u.base].img.hdr.flags) then Walking(0) else Recovered, s.ds);
    ReachedStart(a => a == s, (a, b) => RecoverStep(u, a, b), s);
    ReachedStep(a => a == s, (a, b) => RecoverStep(u, a, b), s, p);
    RecoverKeeps(u, s, p);
    if p.pc == Recovered { r := p; } else { r := RecoveryGoesOn(u, s, p); }
  }

  /** Recovery leaves every delta unmarked and not in use exactly if, with the base marked, no unmarked delta was in
      use, and with the base unmarked, no delta was marked or in use. */
  lemma CleanExact(u: Setup, s: State, r: State)
    requires Inv(u, s) && s.pc == Down && Recovers(u, s, r)
    ensures (forall d :: d in r.ds ==> Clean(d)) <==>
      forall d :: d in s.ds ==> if IsMarked(s.ds, u.base) then Marked(d.img.hdr.flags) || Clean(d) else Clean(d)
  {
    RecoveryLeaves(u, s, r);
    forall j: nat | j < |s.ds| ensures s.ds[j] in s.ds && r.ds[j] in r.ds { }
  }

  /** It leaves a delta that cannot be mounted exactly if the base was unmarked and it was there before. */
  lemma RefusedExact(u: Setup, s: State, r: State)
    requires Inv(u, s) && s.pc == Down && Recovers(u, s, r)
    ensures (exists d :: d in r.ds && Refused(d)) <==>
      !IsMarked(s.ds, u.base) && exists d :: d in s.ds && Refused(d)
  {
    RecoveryLeaves(u, s, r);
    forall d | d in r.ds && Refused(d) ensures d in s.ds && !IsMarked(s.ds, u.base) {
      var j: nat :| j < |r.ds| && r.ds[j] == d;
      assert s.ds[j] in s.ds;
    }
  }

  /** Recovery puts no delta in use that was not, not even in the middle: the 1 it writes into the in-use field of a
      restored header is not the signature. */
  lemma NothingPutInUse(u: Setup, s: State, s': State, j: nat)
    requires RecoverStep(u, s, s') || (Recovering(s.pc) && CrashStep(u, s, s'))
    requires j < |s.ds| && j < |s'.ds| && s'.ds[j].img.hdr.inUse
    ensures s.ds[j].img.hdr.inUse
  {
    if CrashStep(u, s, s') && s'.ds != s.ds && !s.pc.Restoring? {
      var m :| (ConvertStep(u, s, m) || RecoverStep(u, s, m)) && s'.ds == m.ds;
      assert RecoverStep(u, s, m);
    }
  }

  // ---------- where in the conversion a crash does that ----------

  /** The deltas in use and marked while the converter works; it gives up with the base marked, if at all. */
  ghost predicate InUseSo(u: Setup, s: State) {
    var n := |s.ds|;
    match s.pc
    case Backing(_) => true
    case Using(i) => InUseFrom(s.ds, 0, i)
    case Marking(i) => InUseFrom(s.ds, 0, i + 1)
    case Rewriting(_) => InUseFrom(s.ds, 0, n)
    case Unmarking(i) => InUseFrom(s.ds, i, n)
    case Clearing(i) => InUseFrom(s.ds, i, n)
    case Dropping(_) => true
    case Finished => true
    case Down => u.base < n && IsMarked(s.ds, u.base)
    case _ => false
  }

  predicate InUseFrom(ds: seq<DState>, lo: nat, hi: nat) {
    forall j :: lo <= j < hi && j < |ds| ==> ds[j].img.hdr.inUse
  }

  lemma InUseStep(u: Setup, s: State, s': State)
    requires InUseSo(u, s) && Inv(u, s) && ConvertStep(u, s, s')
    ensures InUseSo(u, s')
  {
    if s.pc.Rewriting? { assert Restorable(u, s.ds, u.base); }
  }

  /** `s` can be reached by the converter without a crash. */
  ghost predicate Converting(u: Setup, s: State) {
    Reached(a => Start(u, a), (a, b) => ConvertStep(u, a, b), s)
  }

  lemma ConvertingInv(u: Setup, s: State)
    requires Converting(u, s)
    ensures Inv(u, s) && InUseSo(u, s) && Ready(u)
  {
    var inv := a => Inv(u, a) && InUseSo(u, a) && Ready(u);
    forall a, b | inv(a) && ConvertStep(u, a, b) ensures inv(b) {
      ConvertKeeps(u, a, b);
      InUseStep(u, a, b);
    }
    Invariant(a => Start(u, a), (a, b) => ConvertStep(u, a, b), inv, s);
  }

  /** The first image is unmarked, and some image is not yet. */
  predicate HalfUnmarked(pc: Pc, n: nat) {
    (pc.Unmarking? && 0 < pc.i < n) || (pc.Clearing? && pc.i + 1 < n)
  }

  lemma RefusedSo(u: Setup, s: State)
    requires Inv(u, s) && InUseSo(u, s) && u.base == 0
    ensures HalfUnmarked(s.pc, |s.ds|) <==> (!IsMarked(s.ds, 0) && exists d :: d in s.ds && Refused(d))
  {
    if HalfUnmarked(s.pc, |s.ds|) {
      var j := if s.pc.Unmarking? then s.pc.i else s.pc.i + 1;
      assert IsMarked(s.ds, j) && !IsMarked(s.ds, 0);
      assert s.ds[j] in s.ds && Refused(s.ds[j]);
    } else if !IsMarked(s.ds, 0) {
      NoneMarked(u, s);
      forall d | d in s.ds ensures !Refused(d) {
        var j :| 0 <= j < |s.ds| && s.ds[j] == d;
        assert !IsMarked(s.ds, j);
      }
    }
  }

  lemma NoneMarked(u: Setup, s: State)
    requires Inv(u, s) && InUseSo(u, s) && u.base == 0 && !HalfUnmarked(s.pc, |s.ds|)
    ensures IsMarked(s.ds, 0) || forall j :: 0 <= j < |s.ds| ==> !IsMarked(s.ds, j)
  {
    if s.pc.Rewriting? { assert Restorable(u, s.ds, 0); }
    forall j | 0 <= j < |s.ds| ensures IsMarked(s.ds, 0) || !IsMarked(s.ds, j) {
      match s.pc
      case Backing(_) => assert s.ds[j].img == u.orig[j] && ReadyImage(u.orig[j], u.to);
      case _ =>
    }
  }

  /** With the base as the first image: recovery after a crash between two steps of the conversion leaves a delta that
      cannot be mounted exactly if the first image was unmarked and another was not. */
  lemma CrashRefusedExact(u: Setup, s: State, r: State)
    requires Converting(u, s) && u.base == 0 && Recovers(u, State(Down, s.ds), r)
    ensures (exists d :: d in r.ds && Refused(d)) <==> HalfUnmarked(s.pc, |s.ds|)
  {
    ConvertingInv(u, s);
    StopSafe(u, s);
    RefusedExact(u, State(Down, s.ds), r);
    RefusedSo(u, s);
  }

  /** Every conversion of two deltas or more comes to such a state: crashing there, and opening the stack again, ends
      with contents that are right, and with an image that is refused. */
  lemma RefusedAfterCrash(u: Setup) returns (s: State, r: State)
    requires Ready(u) && AllAllowed(u) && |u.orig| >= 2 && u.base == 0
    ensures Converting(u, s) && Recovers(u, State(Down, s.ds), r) && Reachable(u, r)
    ensures Consistent(u, r.ds) && exists d :: d in r.ds && Refused(d)
  {
    s := HalfWay(u);
    ConvertingInv(u, s);
    StopSafe(u, s);
    r := RecoveryEnds(u, State(Down, s.ds));
    CrashRefusedExact(u, s, r);
    RecoveredReachable(u, s, r);
    CompletedIsConsistent(u, r);
  }

  lemma HalfWay(u: Setup) returns (s: State)
    requires Ready(u) && AllAllowed(u) && |u.orig| >= 2
    ensures Converting(u, s) && HalfUnmarked(s.pc, |s.ds|)
  {
    s := StartReachable(u);
    ReachedStart(a => Start(u, a), (a, b) => ConvertStep(u, a, b), s);
    s := ReachHalfWay(u, s);
  }

  lemma {:induction false} ReachHalfWay(u: Setup, s: State) returns (r: State)
    requires Converting(u, s) && Inv(u, s) && AllAllowed(u) && |u.orig| >= 2
    requires s.pc.Backing? || s.pc.Using? || s.pc.Marking? || s.pc.Rewriting? || s.pc == Unmarking(0) ||
      s.pc == Clearing(0)
    ensures Converting(u, r) && r.pc == Clearing(0) && |r.ds| == |u.orig|
    decreases Distance(s.pc, |u.orig|)
  {
    if s.pc == Clearing(0) {
      r := s;
    } else {
      var s' := ConvertProgress(u, s);
      ReachedStep(a => Start(u, a), (a, b) => ConvertStep(u, a, b), s, s');
      r := ReachHalfWay(u, s');
    }
  }

  lemma ConvertingReachable(u: Setup, s: State)
    requires Converting(u, s)
    ensures Reachable(u, s)
  {
    var inv := a => Reachable(u, a);
    forall a | Start(u, a) ensures inv(a) { ReachedStart(a => Start(u, a), (a, b) => Step(u, a, b), a); }
    forall a, b | inv(a) && ConvertStep(u, a, b) ensures inv(b) { ReachStep(u, a, b); }
    Invariant(a => Start(u, a), (a, b) => ConvertStep(u, a, b), inv, s);
  }

  lemma RecoveredReachable(u: Setup, s: State, r: State)
    requires Converting(u, s) && Recovers(u, State(Down, s.ds), r)
    ensures Reachable(u, r)
  {
    ConvertingReachable(u, s);
    ReachStep(u, s, State(Down, s.ds));
    var inv := a => Reachable(u, a);
    forall a, b | inv(a) && RecoverStep(u, a, b) ensures inv(b) { ReachStep(u, a, b); }
    Invariant(a => a == State(Down, s.ds), (a, b) => RecoverStep(u, a, b), inv, r);
  }

  /** Such a stack: two empty deltas of a device of ten clusters, from version 1 to version 2. */
  lemma EmptyStack() returns (u: Setup)
    ensures Ready(u) && AllAllowed(u) && |u.orig| == 2 && u.base == 0 && u.orig[0].hdr.L2() == 10
  {
    var o := Img(Header(V1, 8, 80, 0, 8, false, 0), [seq(1024, k requires 0 <= k < 1024 => 0 as U32)]);
    u := Setup([o, o], 0, V2);
    forall v: nat | SlotBlock(v, 1024) < 1 ensures Slot(o, v) == 0 { SlotPosition(v, 1024); }
  }
}
