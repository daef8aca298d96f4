/** Copying an image that is being written, against the kernel's write tracker: a first pass over the file, then
    passes over what the tracker reports, the last ones after the file system was frozen. */
module LiveCopy {
  import opened Runs
  import Image

  const SYNC_MARK := 4

  /** Bytes `data` of the file, from `pos` on. */
  datatype Packet = Packet(pos: nat, data: seq<int>) {
    predicate Covers(p: nat) { pos <= p < pos + |data| }
  }

  /** A read in progress: `got` of the `copy` bytes from `start` on have been read. */
  datatype Chunk = None | Chunk(start: nat, copy: nat, got: seq<int>, sync: bool)

  /** Where the copier is: in the first pass, between two passes over reported bytes, in one, past the last one. */
  datatype Phase = First(pos: nat) | Iter | Extent(pos: nat, end: nat) | Closing | Done

  /** `dirty`: written below the tracked position and not reported yet; `grown`: written at or past it. `header`:
      the header was sent once more; `lost`: data was sent in a packet the receiver takes for a sync mark. */
  datatype State = State(
    src: seq<int>, dst: map<nat, int>, queue: seq<Packet>, chunk: Chunk, ph: Phase,
    track: nat, dirty: set<nat>, grown: set<nat>, frozen: bool, header: bool, lost: bool)

  /** Fixed for a copy: the cluster size, the end the tracker reported at the start, and whether the receiver takes
      a packet of the length of the sync mark for a command and drops it. */
  datatype Setting = Setting(cluster: nat, trackEnd: nat, drops: bool)

  predicate Counts(k: Setting, q: Packet) { !(k.drops && |q.data| == SYNC_MARK) }

  function Below(s: set<nat>, at: nat): set<nat> { set p | p in s && p < at }

  // ---------- the guest ----------

  /** The guest writes byte `p`, inside the file or at its end; the tracker notes it. */
  ghost predicate GuestWrites(a: State, b: State) {
    exists p: nat, v: int :: p <= |a.src| && !a.frozen &&
      b == a.(src := if p < |a.src| then a.src[p := v] else a.src + [v],
              dirty := if p < a.track then a.dirty + {p} else a.dirty,
              grown := if p < a.track then a.grown else a.grown + {p})
  }

  // ---------- reads ----------

  /** The tracked position moves: bytes below it that were not tracked are about to be read. */
  function SetPos(a: State, at: nat): State { a.(track := at, grown := a.grown - Below(a.grown, at)) }

  /** Next byte of the read in progress. */
  ghost predicate ReadByte(a: State, b: State) {
    a.chunk.Chunk? && |a.chunk.got| < a.chunk.copy && a.chunk.start + |a.chunk.got| < |a.src| &&
    b == a.(chunk := a.chunk.(got := a.chunk.got + [a.src[a.chunk.start + |a.chunk.got|]]))
  }

  /** The read is over: all bytes are there, or the end of the file was met. */
  predicate ReadOver(a: State) {
    a.chunk.Chunk? && (|a.chunk.got| == a.chunk.copy || a.chunk.start + |a.chunk.got| >= |a.src|)
  }

  function Submit(a: State): State
    requires a.chunk.Chunk?
  {
    a.(queue := a.queue + [Packet(a.chunk.start, a.chunk.got)], chunk := None)
  }

  // ---------- the copier ----------

  /** Data of the length of the sync mark does not arrive. */
  function SubmitData(k: Setting, a: State): State
    requires a.chunk.Chunk?
  {
    Submit(a).(lost := a.lost || !Counts(k, Packet(a.chunk.start, a.chunk.got)))
  }

  ghost predicate FirstPass(k: Setting, a: State, b: State) {
    a.ph.First? &&
    if a.chunk.None? then
      b == SetPos(a, a.ph.pos + k.cluster).(chunk := Chunk(a.ph.pos, k.cluster, [], false)) ||
      (a.ph.pos >= k.trackEnd && b == a.(ph := Iter))
    else
      ReadOver(a) &&
      if a.chunk.got == [] then b == a.(chunk := None, ph := Iter)
      else b == SubmitData(k, a).(ph := First(a.ph.pos + |a.chunk.got|))
  }

  /** The tracker reports bytes `start .. end`, and forgets them. What it reports starts at or below the tracked
      position. */
  ghost predicate TrackRead(a: State, b: State) {
    a.ph == Iter && a.chunk.None? &&
    exists s: nat, e: nat ::
      s < e && s <= a.track && b == a.(ph := Extent(s, e), dirty := a.dirty - (set p | p in a.dirty && s <= p < e))
  }

  /** At most a cluster of `len` bytes. */
  function UpToCluster(k: Setting, len: int): int { if len > k.cluster then k.cluster else len }

  /** The low 32 bits of `len`; a whole cluster if they are negative as a signed number. */
  function LowBits(k: Setting, len: int): int {
    var low := len % 0x1_0000_0000;
    if low >= 0x8000_0000 then k.cluster else low
  }

  /** How much of `len` bytes is read at once: a cluster at most. Computed in an `int`, the length loses its high
      bits first, and when it comes out negative a whole cluster is read. */
  predicate IsCopy(k: Setting, len: int, copy: int) {
    len > 0 && (copy == UpToCluster(k, len) || copy == UpToCluster(k, LowBits(k, len)))
  }

  /** One chunk of a reported extent, or its end. An unexpected end of the file fails the copy: no step. */
  ghost predicate ExtentPass(k: Setting, a: State, b: State) {
    a.ph.Extent? &&
    if a.chunk.None? then
      (a.ph.pos >= a.ph.end && b == a.(ph := Iter)) ||
      (exists copy: nat :: IsCopy(k, a.ph.end - a.ph.pos, copy) && a.ph.pos + copy <= a.ph.end &&
         b == (if a.ph.pos + copy > a.track then SetPos(a, a.ph.pos + copy)
           else a).(chunk := Chunk(a.ph.pos, copy, [], false)))
    else
      ReadOver(a) && a.chunk.got != [] &&
      b == SubmitData(k, a).(ph := Extent(a.ph.pos + |a.chunk.got|, a.ph.end))
  }

  /** The first bytes of the file, sent as a request to sync. */
  ghost predicate SyncMark(a: State, b: State) {
    a.ph == Iter && !a.frozen &&
    if a.chunk.None? then b == a.(chunk := Chunk(0, SYNC_MARK, [], true))
    else |a.chunk.got| == SYNC_MARK && b == Submit(a)
  }

  ghost predicate Freeze(a: State, b: State) {
    a.ph == Iter && a.chunk.None? && b == a.(frozen := true)
  }

  /** The tracker has nothing more to report. */
  ghost predicate NothingLeft(a: State, b: State) {
    a.ph == Iter && a.chunk.None? && a.frozen && a.dirty == {} && a.grown == {} && b == a.(ph := Closing)
  }

  /** A last packet that only touches the header, or what comes after the end of the file. */
  ghost predicate Extra(a: State, q: Packet) {
    |q.data| != SYNC_MARK &&
    forall p: nat :: q.Covers(p) ==> p < Image.SECTOR_SIZE || p >= |a.src| || q.data[p - q.pos] == a.src[p]
  }

  ghost predicate Close(a: State, b: State) {
    a.ph == Closing &&
    ((exists q :: Extra(a, q) && b == a.(queue := a.queue + [q], header := true)) ||
     (a.queue == [] && b == a.(ph := Done)))
  }

  // ---------- the sender ----------

  function Put(dst: map<nat, int>, q: Packet): map<nat, int> {
    map p: nat | p in dst.Keys + (set i: nat | q.pos <= i < q.pos + |q.data| && q.Covers(i)) ::
      if q.Covers(p) then q.data[p - q.pos] else dst[p]
  }

  ghost predicate Deliver(k: Setting, a: State, b: State) {
    a.queue != [] &&
    b == a.(queue := a.queue[1..], dst := if Counts(k, a.queue[0]) then Put(a.dst, a.queue[0]) else a.dst)
  }

  ghost predicate Step(k: Setting, a: State, b: State) {
    GuestWrites(a, b) || ReadByte(a, b) || FirstPass(k, a, b) || TrackRead(a, b) || ExtentPass(k, a, b) ||
      SyncMark(a, b) ||
    Freeze(a, b) || NothingLeft(a, b) || Close(a, b) || Deliver(k, a, b)
  }

  /** The tracker was started: what it will not report is read in the first pass. */
  ghost predicate Start(k: Setting, a: State) {
    && k.cluster >= SYNC_MARK && |a.src| <= k.trackEnd && k.trackEnd > 0 && a.queue == [] && a.chunk == None
    && a.ph == First(0)
    && a.track == 0 && a.dirty == {} && a.grown == {} && !a.frozen && !a.header && !a.lost
  }

  // ---------- what every run keeps ----------

  datatype Value = Absent | Is(v: int)

  /** What byte `p` of the destination will be when all packets have arrived. */
  function Last(k: Setting, dst: map<nat, int>, queue: seq<Packet>, p: nat): Value {
    if queue == [] then if p in dst then Is(dst[p]) else Absent
    else
      var q := queue[|queue| - 1];
      if Counts(k, q) && q.Covers(p) then Is(q.data[p - q.pos]) else Last(k, dst, queue[..|queue| - 1], p)
  }

  /** The same with the bytes read so far. */
  function Arriving(k: Setting, a: State, p: nat): Value {
    if a.chunk.Chunk? && !(k.drops && a.chunk.sync) && a.chunk.start <= p < a.chunk.start + |a.chunk.got| then
      Is(a.chunk.got[p - a.chunk.start])
    else Last(k, a.dst, a.queue, p)
  }

  /** The byte the copier reads next. */
  function NextPos(a: State): nat
    requires a.ph.First? || a.ph.Extent?
  {
    a.ph.pos + if a.chunk.Chunk? then |a.chunk.got| else 0
  }

  /** Byte `p` will still be read in this pass. */
  predicate Ahead(k: Setting, a: State, p: nat) {
    match a.ph
    case First(pos) => NextPos(a) <= p && (p < k.trackEnd || (a.chunk.Chunk? && p < a.chunk.start + a.chunk.copy))
    case Extent(pos, end) => NextPos(a) <= p < end
    case _ => false
  }

  /** Byte `p` is right at the destination, or will be reported, or will still be read. */
  predicate Accounted(k: Setting, a: State, p: nat)
    requires p < |a.src|
  {
    Arriving(k, a, p) == Is(a.src[p]) || p in a.dirty || p in a.grown || Ahead(k, a, p)
  }

  ghost predicate Shape(k: Setting, a: State) {
    && k.cluster >= SYNC_MARK && k.trackEnd > 0 && (a.lost ==> k.drops)
    && (forall p :: p in a.grown ==> p >= a.track)
    && (a.chunk.Chunk? ==> |a.chunk.got| <= a.chunk.copy && a.chunk.start + a.chunk.copy <= a.track)
    && (a.chunk.Chunk? ==>
        (a.chunk.sync <==> a.ph == Iter) && (a.chunk.sync ==> a.chunk.start == 0 && a.chunk.copy == SYNC_MARK))
    && ((a.ph.First? || a.ph.Extent?) && a.chunk.Chunk? ==> a.chunk.start == a.ph.pos)
    && (a.ph.First? ==> a.ph.pos <= a.track <= a.ph.pos + k.cluster && (a.chunk.Chunk? ==> a.chunk.copy == k.cluster))
    && (a.ph.Extent? ==> a.ph.pos <= a.track && (a.chunk.Chunk? ==> a.chunk.start + a.chunk.copy <= a.ph.end))
    && (!a.ph.First? || a.ph.pos > 0 ==> a.track >= SYNC_MARK)
    && (a.ph == Closing || a.ph == Done ==> a.chunk.None? && a.frozen && a.dirty == {} && a.grown == {})
  }

  /** Only the header may differ, and only if it was sent once more. */
  predicate Exempt(a: State, p: nat) { a.header && p < Image.SECTOR_SIZE }

  ghost predicate Covered(k: Setting, a: State) {
    if a.ph == Closing || a.ph == Done then
      forall p: nat :: p < |a.src| && !Exempt(a, p) ==> Last(k, a.dst, a.queue, p) == Is(a.src[p])
    else forall p: nat :: p < |a.src| ==> Accounted(k, a, p)
  }

  ghost predicate Inv(k: Setting, a: State) { Shape(k,
        a) && (a.lost || Covered(k, a)) && (a.ph == Done ==> a.queue == []) }

  lemma {:induction false} LastDelivered(k: Setting, dst: map<nat, int>, queue: seq<Packet>, p: nat)
    requires queue != []
    ensures Last(k, if Counts(k, queue[0]) then Put(dst, queue[0]) else dst, queue[1..], p) == Last(k, dst, queue, p)
    decreases |queue|
  {
    var n := |queue| - 1;
    if n > 0 {
      assert queue[1..][..n - 1] == queue[..n][1..] && queue[1..][n - 1] == queue[n];
      LastDelivered(k, dst, queue[..n], p);
    } else {
      assert queue[..0] == [];
    }
  }

  lemma LastSubmitted(k: Setting, dst: map<nat, int>, queue: seq<Packet>, q: Packet, p: nat)
    ensures Last(k, dst, queue + [q], p) == if Counts(k, q) && q.Covers(p) then Is(q.data[p - q.pos])
      else Last(k, dst, queue, p)
  {
    assert (queue + [q])[..|queue|] == queue;
  }

  lemma GuestKeeps(k: Setting, a: State, b: State)
    requires Inv(k, a) && GuestWrites(a, b)
    ensures Inv(k, b)
  {
    forall p: nat | p < |b.src| && !b.lost ensures Accounted(k, b, p) {
      assert p < |a.src| ==> Accounted(k, a, p);
      assert Arriving(k, b, p) == Arriving(k, a, p);
    }
  }

  lemma ReadKeeps(k: Setting, a: State, b: State)
    requires Inv(k, a) && ReadByte(a, b)
    ensures Inv(k, b)
  {
    forall p: nat | p < |b.src| && !b.lost ensures Accounted(k, b, p) { assert Accounted(k, a, p); }
  }

  /** The bytes read so far go into the queue. */
  lemma SubmittedKeeps(k: Setting, a: State, p: nat)
    requires a.chunk.Chunk? && !a.chunk.sync && Counts(k, Packet(a.chunk.start, a.chunk.got))
    ensures Last(k, a.dst, Submit(a).queue, p) == Arriving(k, a, p)
  {
    LastSubmitted(k, a.dst, a.queue, Packet(a.chunk.start, a.chunk.got), p);
  }

  lemma FirstKeeps(k: Setting, a: State, b: State)
    requires Inv(k, a) && FirstPass(k, a, b)
    ensures Inv(k, b)
  {
    forall p: nat | p < |b.src| && !b.lost ensures Accounted(k, b, p) {
      assert Accounted(k, a, p);
      if a.chunk.Chunk? && a.chunk.got != [] { SubmittedKeeps(k, a, p); }
    }
  }

  lemma ExtentStarts(k: Setting, a: State, b: State)
    requires Inv(k, a) && ExtentPass(k, a, b) && a.chunk.None?
    ensures Inv(k, b)
  {
    forall p: nat | p < |b.src| && !b.lost ensures Accounted(k, b, p) { assert Accounted(k, a, p); }
  }

  lemma ExtentSubmits(k: Setting, a: State, b: State)
    requires Inv(k, a) && ExtentPass(k, a, b) && a.chunk.Chunk?
    ensures Inv(k, b)
  {
    forall p: nat | p < |b.src| && !b.lost ensures Accounted(k, b, p) {
      assert Accounted(k, a, p);
      SubmittedKeeps(k, a, p);
    }
  }

  lemma IterKeeps(k: Setting, a: State, b: State)
    requires Inv(k, a) && (TrackRead(a, b) || SyncMark(a, b) || Freeze(a, b) || NothingLeft(a, b))
    ensures Inv(k, b)
  {
    forall p: nat | p < |b.src| && !b.lost
      ensures if b.ph == Closing then Last(k, b.dst, b.queue, p) == Is(b.src[p]) else Accounted(k, b, p)
    {
      assert Accounted(k, a, p);
      if a.chunk.Chunk? { LastSubmitted(k, a.dst, a.queue, Packet(a.chunk.start, a.chunk.got), p); }
    }
  }

  lemma CloseKeeps(k: Setting, a: State, b: State)
    requires Inv(k, a) && Close(a, b)
    ensures Inv(k, b)
  {
    if q :| Extra(a, q) && b == a.(queue := a.queue + [q], header := true) {
      forall p: nat | p < |a.src| && !Exempt(b, p) && !a.lost ensures Last(k, b.dst, b.queue, p) == Is(a.src[p]) {
        LastSubmitted(k, a.dst, a.queue, q, p);
      }
    }
  }

  lemma DeliverKeeps(k: Setting, a: State, b: State)
    requires Inv(k, a) && Deliver(k, a, b)
    ensures Inv(k, b)
  {
    forall p: nat ensures Last(k, b.dst, b.queue, p) == Last(k, a.dst, a.queue, p) {
      LastDelivered(k, a.dst, a.queue, p);
    }
    forall p: nat | p < |b.src| && a.ph != Closing && a.ph != Done && !b.lost ensures Accounted(k, b, p) {
      assert Accounted(k, a, p);
    }
  }

  lemma StepKeeps(k: Setting, a: State, b: State)
    requires Inv(k, a) && Step(k, a, b)
    ensures Inv(k, b)
  {
    if GuestWrites(a, b) { GuestKeeps(k, a, b); }
    else if ReadByte(a, b) { ReadKeeps(k, a, b); }
    else if FirstPass(k, a, b) { FirstKeeps(k, a, b); }
    else if ExtentPass(k, a, b) && a.chunk.None? { ExtentStarts(k, a, b); }
    else if ExtentPass(k, a, b) { ExtentSubmits(k, a, b); }
    else if Close(a, b) { CloseKeeps(k, a, b); }
    else if Deliver(k, a, b) { DeliverKeeps(k, a, b); }
    else { IterKeeps(k, a, b); }
  }

  ghost predicate ReachedBy(k: Setting, a: State) { Reached(s => Start(k, s), (s, t) => Step(k, s, t), a) }

  /** The destination has every byte of the frozen file, but for a header sent once more. */
  ghost predicate Exact(a: State) {
    a.frozen && forall p: nat :: p < |a.src| && !Exempt(a, p) ==> p in a.dst && a.dst[p] == a.src[p]
  }

  lemma InvExact(k: Setting, a: State)
    requires Inv(k, a) && !a.lost && a.ph == Done
    ensures Exact(a)
  {
    forall p: nat | p < |a.src| && !Exempt(a, p) ensures p in a.dst && a.dst[p] == a.src[p] {
      assert Last(k, a.dst, a.queue, p) == Is(a.src[p]);
    }
  }

  lemma ReachedInv(k: Setting, a: State)
    requires ReachedBy(k, a)
    ensures Inv(k, a)
  {
    forall x, y | Inv(k, x) && Step(k, x, y) ensures Inv(k, y) { StepKeeps(k, x, y); }
    Invariant(s => Start(k, s), (s, t) => Step(k, s, t), s => Inv(k, s), a);
  }

  /** In every run to a receiver that drops nothing: until the tracker has nothing more to report, every byte of the
      file is right at the destination once all packets have arrived, or will be reported, or will still be read;
      and when the copy is done, it is exact. */
  lemma LiveCopyIsExact(k: Setting, a: State)
    requires ReachedBy(k, a) && !k.drops
    ensures a.ph != Closing && a.ph != Done ==> forall p: nat :: p < |a.src| ==> Accounted(k, a, p)
    ensures a.ph == Done ==> Exact(a)
  {
    ReachedInv(k, a);
    if a.ph == Done { InvExact(k, a); }
  }

  // ---------- nobody is stuck ----------

  /** A step of the copier or of the sender that changes something. */
  ghost predicate CopyStep(k: Setting, a: State, b: State) {
    b != a && (ReadByte(a, b) || FirstPass(k, a, b) || TrackRead(a, b) || ExtentPass(k, a, b) || SyncMark(a, b) ||
      Freeze(a, b) || NothingLeft(a, b) || Close(a, b) || Deliver(k, a, b))
  }

  /** The file ended inside a reported extent, or before it had a sync mark: the copy fails. */
  predicate ReadFailed(a: State) {
    ReadOver(a) && ((a.ph == Iter && |a.chunk.got| < SYNC_MARK) || (a.ph.Extent? && a.chunk.got == []))
  }

  /** The next step of a read in progress. */
  lemma ReadGoesOn(k: Setting, a: State) returns (b: State)
    requires Inv(k, a) && a.chunk.Chunk? && !ReadFailed(a) && (a.ph == Iter ==> !a.frozen)
    ensures CopyStep(k, a, b)
  {
    if !ReadOver(a) {
      b := a.(chunk := a.chunk.(got := a.chunk.got + [a.src[a.chunk.start + |a.chunk.got|]]));
    } else if a.ph.First? {
      b := if a.chunk.got == [] then a.(chunk := None, ph := Iter)
        else SubmitData(k, a).(ph := First(a.ph.pos + |a.chunk.got|));
    } else if a.ph.Extent? {
      b := SubmitData(k, a).(ph := Extent(a.ph.pos + |a.chunk.got|, a.ph.end));
    } else {
      b := Submit(a);
    }
  }

  lemma StartsNext(k: Setting, a: State) returns (b: State)
    requires Inv(k, a) && a.chunk.None? && a.ph != Done
    ensures CopyStep(k, a, b)
  {
    match a.ph
    case First(pos) => b := SetPos(a, pos + k.cluster).(chunk := Chunk(pos, k.cluster, [], false));
    case Iter =>
      b := a.(ph := Extent(0, 1), dirty := a.dirty - (set p | p in a.dirty && 0 <= p < 1));
    case Extent(pos, end) =>
      if pos >= end {
        b := a.(ph := Iter);
      } else {
        var copy := UpToCluster(k, end - pos);
        b := (if pos + copy > a.track then SetPos(a, pos + copy) else a).(chunk := Chunk(pos, copy, [], false));
      }
    case Closing =>
      b := if a.queue == [] then a.(ph := Done)
        else a.(queue := a.queue[1..], dst := if Counts(k, a.queue[0]) then Put(a.dst, a.queue[0]) else a.dst);
  }

  lemma SyncOnlyThawed(k: Setting, a: State)
    requires ReachedBy(k, a)
    ensures Inv(k, a) && (a.ph == Iter && a.chunk.Chunk? ==> !a.frozen)
  {
    var inv := s => Inv(k, s) && (s.ph == Iter && s.chunk.Chunk? ==> !s.frozen);
    forall x, y | inv(x) && Step(k, x, y) ensures inv(y) { StepKeeps(k, x, y); }
    Invariant(s => Start(k, s), (s, t) => Step(k, s, t), inv, a);
  }

  /** A copy that is not done can go on, unless the file ended too early. */
  lemma NeverStuck(k: Setting, a: State)
    requires ReachedBy(k, a) && a.ph != Done && !ReadFailed(a)
    ensures exists b :: CopyStep(k, a, b)
  {
    SyncOnlyThawed(k, a);
    if a.chunk.Chunk? {
      var b := ReadGoesOn(k, a);
    } else {
      var b := StartsNext(k, a);
    }
  }

  // ---------- a receiver that drops packets of the length of the sync mark ----------

  lemma Next(k: Setting, a: State, b: State)
    requires ReachedBy(k, a) && Step(k, a, b)
    ensures ReachedBy(k, b)
  {
    ReachedStep(s => Start(k, s), (s, t) => Step(k, s, t), a, b);
  }

  function Zeros(n: nat): seq<int> { seq(n, _ => 0) }

  /** A file that is empty when the tracker starts and then grows to the length of the sync mark. */
  lemma {:induction false} FileGrows(k: Setting, n: nat) returns (a: State)
    requires k.cluster >= SYNC_MARK && k.trackEnd > 0 && n <= SYNC_MARK
    ensures ReachedBy(k, a) && forall p :: p in a.grown ==> p < n
    ensures a == State(Zeros(n), map[], [], None, First(0), 0, {}, a.grown, false, false, false)
  {
    if n == 0 {
      a := State([], map[], [], None, First(0), 0, {}, {}, false, false, false);
      ReachedStart(s => Start(k, s), (s, t) => Step(k, s, t), a);
    } else {
      var b := FileGrows(k, n - 1);
      assert Zeros(n - 1) + [0] == Zeros(n);
      a := b.(src := b.src + [0], grown := b.grown + {n - 1});
      assert GuestWrites(b, a);
      Next(k, b, a);
    }
  }

  /** The first read takes in the whole file. */
  lemma {:induction false} FileIsRead(k: Setting, n: nat) returns (a: State)
    requires k.cluster >= SYNC_MARK && k.trackEnd > 0 && n <= SYNC_MARK
    ensures ReachedBy(k, a)
    ensures a == State(Zeros(SYNC_MARK), map[], [], Chunk(0, k.cluster, Zeros(n), false), First(0), k.cluster, {}, {},
      false, false, false)
  {
    if n == 0 {
      var b := FileGrows(k, SYNC_MARK);
      a := SetPos(b, k.cluster).(chunk := Chunk(0, k.cluster, [], false));
      assert a.grown == {} && Zeros(0) == [];
      assert FirstPass(k, b, a);
      Next(k, b, a);
    } else {
      var b := FileIsRead(k, n - 1);
      a := b.(chunk := b.chunk.(got := b.chunk.got + [0]));
      assert Zeros(n - 1) + [0] == Zeros(n);
      assert ReadByte(b, a);
      Next(k, b, a);
    }
  }

  /** What was read goes out. */
  lemma FileIsSent(k: Setting) returns (a: State)
    requires k.cluster >= SYNC_MARK && k.trackEnd > 0 && k.drops
    ensures ReachedBy(k, a)
    ensures a == State(Zeros(SYNC_MARK), map[], [Packet(0, Zeros(SYNC_MARK))], None, First(SYNC_MARK), k.cluster, {},
      {}, false, false, true)
  {
    var b := FileIsRead(k, SYNC_MARK);
    a := SubmitData(k, b).(ph := First(SYNC_MARK));
    assert a.queue == [Packet(0, Zeros(SYNC_MARK))];
    assert FirstPass(k, b, a);
    Next(k, b, a);
  }

  /** The copier finds the end of the file. */
  lemma FirstPassEnds(k: Setting) returns (a: State)
    requires k.cluster >= SYNC_MARK && k.trackEnd > 0 && k.drops
    ensures ReachedBy(k, a) && a.track >= k.cluster
    ensures a == State(Zeros(SYNC_MARK), map[], [Packet(0, Zeros(SYNC_MARK))], None, Iter, a.track, {}, {}, false,
      false, true)
  {
    var c := FileIsSent(k);
    var d := SetPos(c, SYNC_MARK + k.cluster).(chunk := Chunk(SYNC_MARK, k.cluster, [], false));
    assert FirstPass(k, c, d);
    Next(k, c, d);
    a := d.(chunk := None, ph := Iter);
    assert FirstPass(k, d, a);
    Next(k, d, a);
  }

  /** The tracker has nothing to report, and the copy is done. */
  lemma DroppedFile(k: Setting) returns (a: State)
    requires k.cluster >= SYNC_MARK && k.trackEnd > 0 && k.drops
    ensures ReachedBy(k, a) && a.ph == Done && !Exact(a)
  {
    var b := FirstPassEnds(k);
    var c := b.(queue := []);
    assert b.queue[1..] == [];
    assert Deliver(k, b, c);
    Next(k, b, c);
    var d := c.(frozen := true);
    assert Freeze(c, d);
    Next(k, c, d);
    var e := d.(ph := Closing);
    assert NothingLeft(d, e);
    Next(k, d, e);
    a := e.(ph := Done);
    assert Close(e, a);
    Next(k, e, a);
    assert 0 !in a.dst && !Exempt(a, 0);
  }

  /** Every finished copy is exact exactly if the receiver drops nothing. */
  lemma ExactUnlessDropped(k: Setting)
    requires k.cluster >= SYNC_MARK && k.trackEnd > 0
    ensures (forall a :: ReachedBy(k, a) && a.ph == Done ==> Exact(a)) <==> !k.drops
  {
    if k.drops {
      var a := DroppedFile(k);
    } else {
      forall a | ReachedBy(k, a) && a.ph == Done ensures Exact(a) { LiveCopyIsExact(k, a); }
    }
  }

  /** A step of a copy in whole sectors: the tracker reports whole sectors, and where a read meets the end of the
      file, the file has whole sectors. */
  ghost predicate SectorStep(k: Setting, a: State, b: State) {
    && Step(k, a, b)
    && (a.ph == Iter && b.ph.Extent? ==> b.ph.pos % Image.SECTOR_SIZE == 0 && b.ph.end % Image.SECTOR_SIZE == 0)
    && (a.chunk.Chunk? && ReadOver(a) && |a.chunk.got| < a.chunk.copy ==> |a.src| % Image.SECTOR_SIZE == 0)
  }

  /** No packet of data has the length of the sync mark. */
  ghost predicate InSectors(k: Setting, a: State) {
    && !a.lost && k.cluster % Image.SECTOR_SIZE == 0
    && (a.ph.First? ==> a.ph.pos % Image.SECTOR_SIZE == 0)
    && (a.ph.Extent? ==> a.ph.pos % Image.SECTOR_SIZE == 0 && a.ph.end % Image.SECTOR_SIZE == 0)
    && (a.chunk.Chunk? && !a.chunk.sync ==>
          a.chunk.copy % Image.SECTOR_SIZE == 0 && (a.chunk.got != [] ==> a.chunk.start + |a.chunk.got| <= |a.src|))
  }

  lemma LowInSectors(len: int)
    requires len % Image.SECTOR_SIZE == 0
    ensures (len % 0x1_0000_0000) % Image.SECTOR_SIZE == 0
  {
    var q, s := len / 0x1_0000_0000, len / Image.SECTOR_SIZE;
    assert len % 0x1_0000_0000 == Image.SECTOR_SIZE * (s - 0x80_0000 * q);
  }

  lemma CopyInSectors(k: Setting, len: int, copy: nat)
    requires IsCopy(k, len, copy) && k.cluster % Image.SECTOR_SIZE == 0 && len % Image.SECTOR_SIZE == 0
    ensures copy % Image.SECTOR_SIZE == 0
  {
    LowInSectors(len);
    var low := len % 0x1_0000_0000;
    assert copy == len || copy == k.cluster || copy == low;
  }

  /** What is sent ends at the end of the read or at the end of the file. */
  lemma SentInSectors(k: Setting, a: State)
    requires InSectors(k, a) && Shape(k, a) && (a.ph.First? || a.ph.Extent?) && ReadOver(a) && a.chunk.got != []
    requires |a.chunk.got| < a.chunk.copy ==> |a.src| % Image.SECTOR_SIZE == 0
    ensures |a.chunk.got| % Image.SECTOR_SIZE == 0 && Counts(k, Packet(a.chunk.start, a.chunk.got))
  {
  }

  lemma FirstInSectors(k: Setting, a: State, b: State)
    requires Shape(k, a) && InSectors(k, a) && FirstPass(k, a, b) && SectorStep(k, a, b)
    ensures InSectors(k, b)
  {
    if a.chunk.Chunk? && a.chunk.got != [] { SentInSectors(k, a); }
  }

  lemma ExtentInSectors(k: Setting, a: State, b: State)
    requires Shape(k, a) && InSectors(k, a) && ExtentPass(k, a, b) && SectorStep(k, a, b)
    ensures InSectors(k, b)
  {
    SentFromExtent(k, a, b);
    ReadFromExtent(k, a, b);
  }

  lemma SentFromExtent(k: Setting, a: State, b: State)
    requires Shape(k, a) && InSectors(k, a) && ExtentPass(k, a, b) && SectorStep(k, a, b)
    ensures a.chunk.Chunk? ==> InSectors(k, b)
  {
    if a.chunk.Chunk? { SentInSectors(k, a); }
  }

  lemma ReadFromExtent(k: Setting, a: State, b: State)
    requires Shape(k, a) && InSectors(k, a) && ExtentPass(k, a, b) && SectorStep(k, a, b)
    ensures a.chunk.None? ==> InSectors(k, b)
  {
    if a.chunk.None? && b.chunk.Chunk? {
      SectorsBetween(a.ph.pos, a.ph.end);
      CopyInSectors(k, a.ph.end - a.ph.pos, b.chunk.copy);
    }
  }

  lemma SectorsBetween(p: int, e: int)
    requires p % Image.SECTOR_SIZE == 0 && e % Image.SECTOR_SIZE == 0
    ensures (e - p) % Image.SECTOR_SIZE == 0
  {
  }

  lemma SectorStepKeeps(k: Setting, a: State, b: State)
    requires Inv(k, a) && InSectors(k, a) && SectorStep(k, a, b)
    ensures InSectors(k, b)
  {
    if FirstPass(k, a, b) { FirstInSectors(k, a, b); }
    else if ExtentPass(k, a, b) { ExtentInSectors(k, a, b); }
  }

  /** A copy in whole sectors is exact even then. */
  lemma SectorCopyIsExact(k: Setting, a: State)
    requires k.cluster % Image.SECTOR_SIZE == 0
    requires Reached(s => Start(k, s), (s, t) => SectorStep(k, s, t), a)
    ensures !a.lost && (a.ph == Done ==> Exact(a))
  {
    forall x, y | Inv(k, x) && InSectors(k, x) && SectorStep(k, x, y) ensures Inv(k, y) && InSectors(k, y) {
      StepKeeps(k, x, y);
      SectorStepKeeps(k, x, y);
    }
    Invariant(s => Start(k, s), (s, t) => SectorStep(k, s, t), s => Inv(k, s) && InSectors(k, s), a);
    if a.ph == Done { InvExact(k, a); }
  }
}
