/** The hand-off of buffers to the sending thread that is guarded by a flag: reader and sender under one mutex,
    each waiting for the flag in a loop. Wake-ups without a signal may happen. */
module FlagHandoff {
  import opened Runs

  datatype Packet = Packet(data: int, len: nat, pos: nat)

  /** What the reading thread does next: read and submit a packet, find the end of the file, or submit the
      closing packet. */
  datatype Op = Fetch(packet: Packet) | Eof | Close

  datatype Owner = Free | Reader | Sender
  datatype ReaderPc = Read | Lock | Test | Asleep | Woken | Finished
  datatype SenderPc = Start | STest | SAsleep | SWoken | Send | Done

  datatype State = State(
    todo: seq<Op>, buf0: int, buf1: int, cur: bool, mutex: Owner, r: ReaderPc, s: SenderPc,
    hasData: bool, cellBuf: bool, cellLen: nat, cellPos: nat, sent: seq<Packet>, submitted: seq<Packet>)
  {
    function Buf(i: bool): int { if i then buf1 else buf0 }
    function Fill(i: bool, data: int): State { if i then this.(buf1 := data) else this.(buf0 := data) }
    function Pending(): seq<Packet> { if hasData then [Packet(Buf(cellBuf), cellLen, cellPos)] else [] }
  }

  // ---------- the reading thread ----------

  function Read1(a: State): State
    requires a.r == Read && a.todo != []
  {
    match a.todo[0]
    case Fetch(p) => a.Fill(!a.cur, p.data).(cur := !a.cur, r := Lock)
    case Eof => a.(cur := !a.cur, todo := a.todo[1..])
    case Close => a.(r := Lock)
  }

  function Submitting(a: State): Packet
    requires a.todo != []
  {
    if a.todo[0].Fetch? then Packet(a.Buf(a.cur), a.todo[0].packet.len, a.todo[0].packet.pos)
    else Packet(a.Buf(a.cur), 0, 0)
  }

  function Submit(a: State): State
    requires a.r == Test && a.todo != []
  {
    var p := Submitting(a);
    a.(cellBuf := a.cur, cellLen := p.len, cellPos := p.pos, hasData := true,
       s := if a.s == SAsleep then SWoken else a.s,
       mutex := Free, submitted := a.submitted + [p], todo := a.todo[1..],
       r := if a.todo[0].Close? then Finished else Read)
  }

  ghost predicate ReaderStep(a: State, b: State) {
    || (a.r == Read && a.todo != [] && b == Read1(a))
    || ((a.r == Lock || a.r == Woken) && a.mutex == Free && b == a.(mutex := Reader, r := Test))
    || (a.r == Test && a.hasData && b == a.(mutex := Free, r := Asleep))
    || (a.r == Test && !a.hasData && a.todo != [] && b == Submit(a))
  }

  // ---------- the sending thread ----------

  function Send1(a: State): State
    requires a.s == Send
  {
    var last := a.cellLen == 0 && a.cellPos == 0;
    a.(sent := a.sent + [Packet(a.Buf(a.cellBuf), a.cellLen, a.cellPos)], hasData := false,
       r := if a.r == Asleep then Woken else a.r, s := if last then Done else STest,
       mutex := if last then Free else Sender)
  }

  ghost predicate SenderStep(a: State, b: State) {
    || ((a.s == Start || a.s == SWoken) && a.mutex == Free && b == a.(mutex := Sender, s := STest))
    || (a.s == STest && !a.hasData && b == a.(mutex := Free, s := SAsleep))
    || (a.s == STest && a.hasData && b == a.(s := Send))
    || (a.s == Send && b == Send1(a))
  }

  /** A wake-up nobody asked for. */
  ghost predicate SpuriousStep(a: State, b: State) {
    (a.r == Asleep && b == a.(r := Woken)) || (a.s == SAsleep && b == a.(s := SWoken))
  }

  ghost predicate Step(a: State, b: State) { ReaderStep(a, b) || SenderStep(a, b) || SpuriousStep(a, b) }

  // ---------- scripts ----------

  /** Packets of data are not empty; the closing packet comes last. */
  ghost predicate WellEnded(todo: seq<Op>) {
    && |todo| > 0 && todo[|todo| - 1].Close?
    && forall k :: 0 <= k < |todo| - 1 ==> !todo[k].Close? && (todo[k].Fetch? ==> todo[k].packet.len > 0)
  }

  /** No packet is read after the end of the file was found. */
  ghost predicate Alternating(todo: seq<Op>) {
    forall j, k :: 0 <= j < k < |todo| && todo[j].Eof? ==> !todo[k].Fetch?
  }

  /** The end of the file is not found between two packets. */
  ghost predicate Calm(todo: seq<Op>) {
    forall i, j, k :: 0 <= i < j < k < |todo| && todo[i].Fetch? && todo[j].Eof? ==> !todo[k].Fetch?
  }

  function Packets(todo: seq<Op>): seq<Packet> {
    if todo == [] then []
    else match todo[0]
         case Fetch(p) => [p] + Packets(todo[1..])
         case Eof => Packets(todo[1..])
         case Close => []
  }

  ghost predicate Start0(script: seq<Op>, a: State) {
    && a.todo == script && a.mutex == Free && a.r == Read && a.s == Start && !a.hasData && a.sent == []
    && a.submitted == []
  }

  // ---------- what every run keeps ----------

  /** Who holds the mutex, and why a sleeper may sleep. */
  ghost predicate Locking(a: State) {
    && (a.mutex == Reader <==> a.r == Test)
    && (a.mutex == Sender <==> a.s == STest || a.s == Send)
    && (a.r == Asleep ==> a.hasData) && (a.s == SAsleep ==> !a.hasData) && (a.s == Send ==> a.hasData)
    && (a.r != Finished ==> WellEnded(a.todo) && a.s != Done && (a.hasData ==> a.cellLen > 0))
    && (a.r == Lock || a.r == Test || a.r == Asleep || a.r == Woken ==> !a.todo[0].Eof?)
    && (a.r == Finished ==> if a.s == Done then !a.hasData else a.hasData && a.cellLen == 0 && a.cellPos == 0)
  }

  lemma RestEnds(todo: seq<Op>)
    requires WellEnded(todo)
    ensures if todo[0].Close? then |todo| == 1 else |todo| > 1 && WellEnded(todo[1..])
  {
  }

  lemma LockingByReader(a: State, b: State)
    requires Locking(a) && ReaderStep(a, b)
    ensures Locking(b)
  {
    if a.r != Finished { RestEnds(a.todo); }
  }

  lemma LockingByOthers(a: State, b: State)
    requires Locking(a) && (SenderStep(a, b) || SpuriousStep(a, b))
    ensures Locking(b)
  {
  }

  /** The buffer the reader is about to fill is the one being sent. */
  predicate FillsSending(a: State) {
    a.r == Read && a.todo != [] && a.todo[0].Fetch? && a.hasData && a.cellBuf == !a.cur
  }

  /** A packet is in the reader's hands. */
  predicate Holding(a: State) { a.r == Lock || a.r == Test || a.r == Asleep || a.r == Woken }

  /** Reads and submissions alternate between the two buffers. */
  ghost predicate Buffers(a: State) {
    && (a.r != Finished ==> if a.submitted == [] && a.r == Read then Calm(a.todo) else Alternating(a.todo))
    && (a.hasData ==> a.submitted != [])
    && (a.hasData && a.r == Read && a.cellBuf != a.cur ==> forall k :: 0 <= k < |a.todo| ==> !a.todo[k].Fetch?)
    && (a.hasData && Holding(a) && a.todo != [] && a.todo[0].Fetch? ==> a.cellBuf != a.cur)
  }

  lemma NotFilling(a: State)
    requires Buffers(a)
    ensures !FillsSending(a)
  {
  }

  lemma BuffersByRead(a: State, b: State)
    requires Locking(a) && Buffers(a) && a.r == Read && a.todo != [] && b == Read1(a)
    ensures Buffers(b)
  {
    NotFilling(a);
  }

  lemma BuffersByReader(a: State, b: State)
    requires Locking(a) && Buffers(a) && ReaderStep(a, b)
    ensures Buffers(b)
  {
    if a.r == Read { BuffersByRead(a, b); }
  }

  lemma BuffersByOthers(a: State, b: State)
    requires Locking(a) && Buffers(a) && (SenderStep(a, b) || SpuriousStep(a, b))
    ensures Buffers(b)
  {
  }

  /** What was sent, what is being sent, and what is still to be submitted. */
  ghost predicate Flow(script: seq<Op>, a: State) {
    && a.sent + a.Pending() == a.submitted
    && (Holding(a) && a.todo != [] && a.todo[0].Fetch? ==> a.Buf(a.cur) == a.todo[0].packet.data)
    && (a.r != Finished ==> a.submitted + Packets(a.todo) == Packets(script))
    && (a.r == Finished ==> exists d :: a.submitted == Packets(script) + [Packet(d, 0, 0)])
  }

  lemma FlowByReader(script: seq<Op>, a: State, b: State)
    requires Locking(a) && Buffers(a) && Flow(script, a) && ReaderStep(a, b)
    ensures Flow(script, b)
  {
    NotFilling(a);
  }

  lemma FlowByOthers(script: seq<Op>, a: State, b: State)
    requires Locking(a) && Buffers(a) && Flow(script, a) && (SenderStep(a, b) || SpuriousStep(a, b))
    ensures Flow(script, b)
  {
  }

  ghost predicate Inv(script: seq<Op>, a: State) { Locking(a) && Buffers(a) && Flow(script, a) }

  lemma InvKept(script: seq<Op>, a: State, b: State)
    requires Inv(script, a) && Step(a, b)
    ensures Inv(script, b)
  {
    if ReaderStep(a, b) {
      LockingByReader(a, b);
      BuffersByReader(a, b);
      FlowByReader(script, a, b);
    } else {
      LockingByOthers(a, b);
      BuffersByOthers(a, b);
      FlowByOthers(script, a, b);
    }
  }

  /** Some thread can go on without a spurious wake-up. */
  ghost predicate CanMove(a: State) { exists b :: ReaderStep(a, b) || SenderStep(a, b) }

  lemma Progress(a: State)
    requires Locking(a) && !(a.r == Finished && a.s == Done)
    ensures CanMove(a)
  {
    if a.r == Read { assert ReaderStep(a, Read1(a)); }
    else if (a.r == Lock || a.r == Woken) && a.mutex == Free { assert ReaderStep(a, a.(mutex := Reader, r := Test)); }
    else if a.r == Test && a.hasData { assert ReaderStep(a, a.(mutex := Free, r := Asleep)); }
    else if a.r == Test { assert ReaderStep(a, Submit(a)); }
    else if a.s == Start || a.s == SWoken { assert SenderStep(a, a.(mutex := Sender, s := STest)); }
    else if a.s == STest && a.hasData { assert SenderStep(a, a.(s := Send)); }
    else if a.s == STest { assert SenderStep(a, a.(mutex := Free, s := SAsleep)); }
    else { assert SenderStep(a, Send1(a)); }
  }

  /** In every run: what was sent and what is being sent is what was submitted, in order and once; the reader
      never fills the buffer being sent; until both threads are through, one of them can go on; and in the end
      every packet was sent. */
  lemma HandoffIsSafe(script: seq<Op>, a: State)
    requires WellEnded(script) && Calm(script) && Reached(s => Start0(script, s), Step, a)
    ensures a.sent + a.Pending() == a.submitted && !FillsSending(a)
    ensures !(a.r == Finished && a.s == Done) ==> CanMove(a)
    ensures a.r == Finished && a.s == Done ==> exists d :: a.sent == Packets(script) + [Packet(d, 0, 0)]
  {
    forall x, y | Inv(script, x) && Step(x, y) ensures Inv(script, y) { InvKept(script, x, y); }
    Invariant(s => Start0(script, s), Step, s => Inv(script, s), a);
    NotFilling(a);
    if !(a.r == Finished && a.s == Done) { Progress(a); }
  }

  // ---------- the end of the file between two packets ----------

  function Ops(ps: seq<Packet>): (s: seq<Op>)
    ensures |s| == |ps| && forall k :: 0 <= k < |ps| ==> s[k] == Fetch(ps[k])
  {
    seq(|ps|, k requires 0 <= k < |ps| => Fetch(ps[k]))
  }

  /** The script of a copy: the first pass, which may run into the end of the file, then all further packets. */
  function Script(first: seq<Packet>, eof: bool, rest: seq<Packet>): seq<Op> {
    Ops(first) + (if eof then [Eof] else []) + Ops(rest) + [Close]
  }

  ghost predicate NonEmpty(ps: seq<Packet>) { forall k :: 0 <= k < |ps| ==> ps[k].len > 0 }

  lemma ScriptEnds(first: seq<Packet>, eof: bool, rest: seq<Packet>)
    requires NonEmpty(first) && NonEmpty(rest)
    ensures WellEnded(Script(first, eof, rest))
    ensures !(eof && first != [] && rest != []) ==> Calm(Script(first, eof, rest))
  {
  }

  predicate Quiet(a: State) {
    a.mutex == Free && a.r == Read && (a.s == Start || a.s == SAsleep) && !a.hasData
  }

  /** Reading and submitting one packet while the sender does not run. */
  lemma SubmitRun(script: seq<Op>, a: State) returns (b: State)
    requires Reached(s => Start0(script, s), Step, a) && Quiet(a) && |a.todo| > 1 && a.todo[0].Fetch?
    ensures Reached(s => Start0(script, s), Step, b) && b.todo == a.todo[1..] && b.mutex == Free && b.r == Read
    ensures b.hasData
    ensures (b.s == Start || b.s == SWoken) && b.cellBuf == b.cur && b.cellLen == a.todo[0].packet.len
  {
    var a1 := Read1(a);
    var a2 := a1.(mutex := Reader, r := Test);
    b := Submit(a2);
    ReachedStep(s => Start0(script, s), Step, a, a1);
    ReachedStep(s => Start0(script, s), Step, a1, a2);
    ReachedStep(s => Start0(script, s), Step, a2, b);
  }

  /** The sender sends it and goes to sleep. */
  lemma SendRun(script: seq<Op>, a: State) returns (b: State)
    requires Reached(s => Start0(script, s), Step, a) && a.mutex == Free && a.r == Read
    requires (a.s == Start || a.s == SWoken) && a.hasData && a.cellLen > 0
    ensures Reached(s => Start0(script, s), Step, b) && Quiet(b) && b.todo == a.todo
  {
    var a1 := a.(mutex := Sender, s := STest);
    var a2 := a1.(s := Send);
    var a3 := Send1(a2);
    b := a3.(mutex := Free, s := SAsleep);
    ReachedStep(s => Start0(script, s), Step, a, a1);
    ReachedStep(s => Start0(script, s), Step, a1, a2);
    ReachedStep(s => Start0(script, s), Step, a2, a3);
    ReachedStep(s => Start0(script, s), Step, a3, b);
  }

  lemma {:induction false} QuietAfter(script: seq<Op>, n: nat) returns (a: State)
    requires n < |script| && forall k :: 0 <= k < n ==> script[k].Fetch? && script[k].packet.len > 0
    ensures Reached(s => Start0(script, s), Step, a) && Quiet(a) && a.todo == script[n..]
    decreases n
  {
    if n == 0 {
      a := State(script, 0, 0, false, Free, Read, Start, false, false, 0, 0, [], []);
      ReachedStart(s => Start0(script, s), Step, a);
    } else {
      var b := QuietAfter(script, n - 1);
      assert script[n - 1..][1..] == script[n..];
      b := SubmitRun(script, b);
      a := SendRun(script, b);
    }
  }

  /** If the end of the file was found in the first pass and more packets follow, the next one is read into
      the buffer the sender may still be sending. */
  lemma EofSkewsBuffers(first: seq<Packet>, rest: seq<Packet>) returns (a: State)
    requires first != [] && rest != [] && NonEmpty(first) && NonEmpty(rest)
    ensures Reached(s => Start0(Script(first, true, rest), s), Step, a) && FillsSending(a)
  {
    var script := Script(first, true, rest);
    var b := QuietAfter(script, |first| - 1);
    b := SubmitRun(script, b);
    assert b.todo == script[|first|..];
    a := Read1(b);
    ReachedStep(s => Start0(script, s), Step, b, a);
    assert a.todo[0] == script[|first| + 1];
  }

  /** The buffer being sent is left alone in every run exactly if the end of the file is not found between
      two packets. */
  lemma BuffersExact(first: seq<Packet>, eof: bool, rest: seq<Packet>)
    requires NonEmpty(first) && NonEmpty(rest)
    ensures (forall a :: Reached(s => Start0(Script(first, eof, rest), s), Step, a) ==> !FillsSending(a))
      <==> !(eof && first != [] && rest != [])
  {
    var script := Script(first, eof, rest);
    ScriptEnds(first, eof, rest);
    if eof && first != [] && rest != [] {
      var a := EofSkewsBuffers(first, rest);
    } else {
      forall a | Reached(s => Start0(script, s), Step, a) ensures !FillsSending(a) { HandoffIsSafe(script, a); }
    }
  }
}
