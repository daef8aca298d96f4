/** The hand-off of buffers to the sending thread that rests on signals alone: two mutexes, two conditions and a
    barrier. It assumes that nobody wakes up without a signal; a signal nobody waits for is lost. */
module CondHandoff {
  import opened Runs

  datatype Packet = Packet(data: int, len: nat, pos: nat)

  /** What the copying thread does next: read and submit a packet, find the end of the file, wait until the
      sender is idle, write to the output itself, or submit the closing packet. */
  datatype Op = Fetch(packet: Packet) | Eof | WaitSender | Direct(packet: Packet) | Close

  datatype Owner = Free | Copier | Sender
  datatype CopierPc = AtBarrier | Next | LockSend | Submit | GoWait | Asleep | Woken | Finished
  datatype SenderPc = Lock | SBarrier | GoSleep | SAsleep | SWoken | Wake | Send | Done

  datatype State = State(
    todo: seq<Op>, buf0: int, buf1: int, cur: bool, mutex: Owner, waitMutex: Owner, c: CopierPc, s: SenderPc,
    cellBuf: bool, cellLen: nat, cellPos: nat, wire: seq<Packet>, submitted: seq<Packet>)
  {
    function Buf(i: bool): int { if i then buf1 else buf0 }
    function Fill(i: bool, data: int): State { if i then this.(buf1 := data) else this.(buf0 := data) }
    /** The cell holds a packet the sender has not written yet. */
    predicate Busy() { s == SWoken || s == Wake || s == Send }
    function Pending(): seq<Packet> { if Busy() then [Packet(Buf(cellBuf), cellLen, cellPos)] else [] }
  }

  // ---------- the copying thread ----------

  function NextOp(a: State): State
    requires a.c == Next && a.todo != []
  {
    match a.todo[0]
    case Fetch(p) => a.Fill(!a.cur, p.data).(cur := !a.cur, c := LockSend)
    case Eof => a.(cur := !a.cur, todo := a.todo[1..])
    case WaitSender => a.(todo := a.todo[1..])
    case Direct(p) => a.(wire := a.wire + [p], submitted := a.submitted + [p], todo := a.todo[1..])
    case Close => a.(c := LockSend)
  }

  function Submitting(a: State): Packet
    requires a.todo != []
  {
    if a.todo[0].Fetch? then Packet(a.Buf(a.cur), a.todo[0].packet.len, a.todo[0].packet.pos)
    else Packet(a.Buf(a.cur), 0, 0)
  }

  function Signal(a: State): State
    requires a.c == Submit && a.todo != []
  {
    var p := Submitting(a);
    a.(cellBuf := a.cur, cellLen := p.len, cellPos := p.pos, s := if a.s == SAsleep then SWoken else a.s,
       mutex := Free, submitted := a.submitted + [p], c := GoWait)
  }

  function Resume(a: State): State
    requires a.c == Woken && a.todo != []
  {
    a.(waitMutex := Copier, todo := a.todo[1..], c := if a.todo[0].Close? then Finished else Next)
  }

  ghost predicate CopierStep(a: State, b: State) {
    || (a.c == Next && a.todo != [] && (a.todo[0].WaitSender? ==> a.mutex == Free) && b == NextOp(a))
    || (a.c == LockSend && a.mutex == Free && b == a.(mutex := Copier, c := Submit))
    || (a.c == Submit && a.todo != [] && b == Signal(a))
    || (a.c == GoWait && b == a.(waitMutex := Free, c := Asleep))
    || (a.c == Woken && a.waitMutex == Free && a.todo != [] && b == Resume(a))
  }

  // ---------- the sending thread ----------

  function Send1(a: State): State
    requires a.s == Send
  {
    var last := a.cellLen == 0 && a.cellPos == 0;
    a.(wire := a.wire + [Packet(a.Buf(a.cellBuf), a.cellLen, a.cellPos)],
       s := if last then Done else GoSleep, mutex := if last then Free else Sender)
  }

  ghost predicate SenderStep(a: State, b: State) {
    || (a.s == Lock && a.mutex == Free && b == a.(mutex := Sender, s := SBarrier))
    || (a.s == SBarrier && a.c == AtBarrier && b == a.(s := GoSleep, c := Next))
    || (a.s == GoSleep && b == a.(mutex := Free, s := SAsleep))
    || (a.s == SWoken && a.mutex == Free && b == a.(mutex := Sender, s := Wake))
    || (a.s == Wake && a.waitMutex == Free && b == a.(s := Send, c := if a.c == Asleep then Woken else a.c))
    || (a.s == Send && b == Send1(a))
  }

  ghost predicate Step(a: State, b: State) { CopierStep(a, b) || SenderStep(a, b) }

  // ---------- scripts ----------

  /** Where the script stands: nothing submitted since the sender was idle, and whether the end of the file was
      found since then. */
  datatype Phase = Idle | Running | AtEnd

  function AfterEof(ph: Phase): Phase { if ph == Idle then Idle else AtEnd }

  /** Packets are not empty, the copier waits for the sender after the end of the file and before it writes
      itself, and the closing packet comes last. */
  predicate Disciplined(todo: seq<Op>, ph: Phase) {
    todo != [] &&
    match todo[0]
    case Fetch(p) => p.len > 0 && ph != AtEnd && Disciplined(todo[1..], Running)
    case Eof => Disciplined(todo[1..], AfterEof(ph))
    case WaitSender => Disciplined(todo[1..], Idle)
    case Direct(_) => ph == Idle && Disciplined(todo[1..], Idle)
    case Close => |todo| == 1
  }

  /** The packets of a script, in order. */
  function Packets(todo: seq<Op>): seq<Packet> {
    if todo == [] then []
    else match todo[0]
         case Fetch(p) => [p] + Packets(todo[1..])
         case Direct(p) => [p] + Packets(todo[1..])
         case _ => Packets(todo[1..])
  }

  ghost predicate Start0(script: seq<Op>, a: State) {
    && a.todo == script && a.mutex == Free && a.waitMutex == Copier && a.c == AtBarrier && a.s == Lock
    && a.wire == [] && a.submitted == []
  }

  // ---------- what every run keeps ----------

  predicate Holding(a: State) { a.c == LockSend || a.c == Submit }
  predicate Waiting(a: State) { a.c == GoWait || a.c == Asleep || a.c == Woken }

  /** The packet in the cell is the closing one. */
  predicate Closing(a: State) { a.c == Finished || (Waiting(a) && a.todo != [] && a.todo[0].Close?) }

  /** Who holds the mutexes; the sender sleeps whenever it is signalled, and the copier whenever it is. */
  ghost predicate Locking(a: State) {
    && (a.mutex == Copier <==> a.c == Submit)
    && (a.mutex == Sender <==> a.s == SBarrier || a.s == GoSleep || a.s == Wake || a.s == Send)
    && (a.waitMutex == if a.c == Asleep || a.c == Woken then Free else Copier)
    && (a.c == AtBarrier <==> a.s == Lock || a.s == SBarrier)
    && (a.c == Submit ==> a.s == SAsleep)
    && (a.s == SWoken || a.s == Wake <==> a.c == GoWait || a.c == Asleep)
    && (a.c != Finished ==> a.todo != [])
    && (Holding(a) || Waiting(a) ==> a.todo[0].Fetch? || a.todo[0].Close?)
    && (if Closing(a) then a.cellLen == 0 && (a.Busy() || a.s == Done) && a.cellPos == 0
      else a.s != Done && (a.Busy() ==> a.cellLen > 0))
  }

  /** The copier is between two steps of its script, in phase `ph`. */
  ghost predicate InPhase(a: State, ph: Phase) {
    Disciplined(a.todo, ph) && (ph == Idle ==> !a.Busy()) && (ph == Running && a.Busy() ==> a.cellBuf == a.cur)
  }

  /** The operation the copier is in the middle of, and what comes after it. */
  ghost predicate InHand(todo: seq<Op>)
    requires todo != []
  {
    if todo[0].Fetch? then todo[0].packet.len > 0 && Disciplined(todo[1..], Running) else |todo| == 1
  }

  /** The script is kept to, and reads and submissions alternate between the two buffers. */
  ghost predicate Buffers(a: State) {
    && (a.c == AtBarrier ==> Disciplined(a.todo, Idle))
    && (a.c == Next ==> InPhase(a, Idle) || InPhase(a, Running) || InPhase(a, AtEnd))
    && (Holding(a) || Waiting(a) ==> a.todo != [] && InHand(a.todo))
    && (Holding(a) && a.Busy() && a.todo[0].Fetch? ==> a.cellBuf != a.cur)
    && (Waiting(a) && a.Busy() ==> a.cellBuf == a.cur)
  }

  /** What was written, what is being sent, and what is still to be submitted. */
  ghost predicate Flow(script: seq<Op>, a: State) {
    && a.wire + a.Pending() == a.submitted
    && (Holding(a) && a.todo != [] && a.todo[0].Fetch? ==> a.Buf(a.cur) == a.todo[0].packet.data)
    && (a.c == AtBarrier || a.c == Next || Holding(a) ==> a.submitted + Packets(a.todo) == Packets(script))
    && (Waiting(a) && a.todo != [] && a.todo[0].Fetch? ==> a.submitted + Packets(a.todo[1..]) == Packets(script))
    && (Closing(a) ==> exists d :: a.submitted == Packets(script) + [Packet(d, 0, 0)])
  }

  /** The buffer the copier is about to fill is the one being sent. */
  predicate FillsSending(a: State) {
    a.c == Next && a.todo != [] && a.todo[0].Fetch? && a.Busy() && a.cellBuf == !a.cur
  }

  ghost predicate Inv(script: seq<Op>, a: State) { Locking(a) && Buffers(a) && Flow(script, a) }

  lemma NotFilling(a: State)
    requires Locking(a) && Buffers(a)
    ensures !FillsSending(a)
  {
  }

  lemma EofPhase(a: State, ph: Phase)
    requires a.c == Next && a.todo != [] && a.todo[0] == Eof && InPhase(a, ph)
    ensures InPhase(NextOp(a), AfterEof(ph))
  {
    assert Disciplined(a.todo, ph) == Disciplined(a.todo[1..], AfterEof(ph));
  }

  lemma NextPhase(a: State)
    requires Locking(a) && Buffers(a) && a.c == Next && (a.todo[0].WaitSender? ==> a.mutex == Free)
    ensures var b := NextOp(a); Locking(b) && Buffers(b)
  {
    NotFilling(a);
    var ph :| InPhase(a, ph);
    var b := NextOp(a);
    match a.todo[0]
    case Fetch(_) =>
    case Eof => EofPhase(a, ph);
    case WaitSender => assert InPhase(b, Idle);
    case Direct(_) => assert InPhase(b, Idle);
    case Close =>
  }

  lemma DirectFlow(script: seq<Op>, a: State)
    requires Flow(script, a) && a.c == Next && a.todo != [] && a.todo[0].Direct? && !a.Busy()
    ensures Flow(script, NextOp(a))
  {
    var p := a.todo[0].packet;
    assert a.submitted + [p] + Packets(a.todo[1..]) == a.submitted + ([p] + Packets(a.todo[1..]));
  }

  lemma OtherFlow(script: seq<Op>, a: State)
    requires Flow(script, a) && a.c == Next && a.todo != [] && !a.todo[0].Direct? && !FillsSending(a)
    ensures Flow(script, NextOp(a))
  {
  }

  lemma NextKeeps(script: seq<Op>, a: State)
    requires Inv(script, a) && a.c == Next
    ensures Flow(script, NextOp(a))
  {
    NotFilling(a);
    if a.todo[0].Direct? {
      assert InPhase(a, Idle);
      DirectFlow(script, a);
    } else {
      OtherFlow(script, a);
    }
  }

  lemma LockSendKeeps(script: seq<Op>, a: State)
    requires Inv(script, a) && a.c == LockSend && a.mutex == Free
    ensures Inv(script, a.(mutex := Copier, c := Submit))
  {
  }

  lemma SignalLocks(a: State)
    requires Locking(a) && Buffers(a) && a.c == Submit && a.todo != []
    ensures Locking(Signal(a)) && Buffers(Signal(a))
  {
  }

  /** Submitting packet `p` takes it from what is still to be submitted. */
  lemma OneSubmitted(submitted: seq<Packet>, todo: seq<Op>, p: Packet)
    requires todo != [] && todo[0] == Fetch(p)
    ensures submitted + Packets(todo) == (submitted + [p]) + Packets(todo[1..])
  {
    assert submitted + ([p] + Packets(todo[1..])) == (submitted + [p]) + Packets(todo[1..]);
  }

  lemma SignalFlow(script: seq<Op>, a: State)
    requires Locking(a) && Flow(script, a) && a.c == Submit && a.todo != [] && (a.todo[0].Close? ==> |a.todo| == 1)
    ensures Flow(script, Signal(a))
  {
    if a.todo[0].Close? {
      assert a.todo[1..] == [] && Packets(a.todo) == [] && a.submitted + [] == a.submitted;
    } else {
      OneSubmitted(a.submitted, a.todo, a.todo[0].packet);
    }
  }

  lemma SignalKeeps(script: seq<Op>, a: State)
    requires Inv(script, a) && a.c == Submit && a.todo != []
    ensures Inv(script, Signal(a))
  {
    SignalLocks(a);
    SignalFlow(script, a);
  }

  lemma ResumeKeeps(script: seq<Op>, a: State)
    requires Inv(script, a) && a.c == Woken && a.todo != []
    ensures Inv(script, Resume(a))
  {
    if a.todo[0].Fetch? { assert InPhase(Resume(a), Running); }
  }

  lemma CopierKeeps(script: seq<Op>, a: State, b: State)
    requires Inv(script, a) && CopierStep(a, b)
    ensures Inv(script, b)
  {
    match a.c
    case Next =>
      NextPhase(a);
      NextKeeps(script, a);
    case LockSend => LockSendKeeps(script, a);
    case Submit => SignalKeeps(script, a);
    case GoWait =>
    case Woken => ResumeKeeps(script, a);
    case _ =>
  }

  lemma SenderKeeps(script: seq<Op>, a: State, b: State)
    requires Inv(script, a) && SenderStep(a, b)
    ensures Inv(script, b)
  {
  }

  /** Some thread can go on. */
  ghost predicate CanMove(a: State) { exists b :: Step(a, b) }

  lemma Progress(a: State)
    requires Locking(a) && !(a.c == Finished && a.s == Done)
    ensures CanMove(a)
  {
    if a.s == Lock && a.mutex == Free { assert Step(a, a.(mutex := Sender, s := SBarrier)); }
    else if a.s == SBarrier { assert Step(a, a.(s := GoSleep, c := Next)); }
    else if a.s == GoSleep { assert Step(a, a.(mutex := Free, s := SAsleep)); }
    else if a.s == SWoken && a.mutex == Free { assert Step(a, a.(mutex := Sender, s := Wake)); }
    else if a.s == Wake && a.waitMutex == Free {
      assert Step(a, a.(s := Send, c := if a.c == Asleep then Woken else a.c));
    }
    else if a.s == Send { assert Step(a, Send1(a)); }
    else if a.c == Next { assert Step(a, NextOp(a)); }
    else if a.c == LockSend { assert Step(a, a.(mutex := Copier, c := Submit)); }
    else if a.c == Submit { assert Step(a, Signal(a)); }
    else if a.c == GoWait { assert Step(a, a.(waitMutex := Free, c := Asleep)); }
    else { assert Step(a, Resume(a)); }
  }

  /** In every run no signal is lost: whenever the copier signals, the sender sleeps; what is on the wire and what is
      being sent is what was submitted, in order and once, the copier's own writes included; the buffer being sent is
      never filled; until both are through, one of them can go on; and in the end every packet was written. */
  lemma HandoffIsSafe(script: seq<Op>, a: State)
    requires Disciplined(script, Idle) && Reached(s => Start0(script, s), Step, a)
    ensures a.wire + a.Pending() == a.submitted && !FillsSending(a) && (a.c == Submit ==> a.s == SAsleep)
    ensures !(a.c == Finished && a.s == Done) ==> CanMove(a)
    ensures a.c == Finished && a.s == Done ==> exists d :: a.wire == Packets(script) + [Packet(d, 0, 0)]
  {
    forall x, y | Inv(script, x) && Step(x, y) ensures Inv(script, y) {
      if CopierStep(x, y) { CopierKeeps(script, x, y); } else { SenderKeeps(script, x, y); }
    }
    Invariant(s => Start0(script, s), Step, s => Inv(script, s), a);
    NotFilling(a);
    if !(a.c == Finished && a.s == Done) { Progress(a); }
  }

  // ---------- the scripts of a copy ----------

  /** One call: packets read and submitted, perhaps the end of the file, and, once the sender is idle, what the
      copier writes itself. */
  datatype Round = Round(fetched: seq<Packet>, eof: bool, direct: seq<Packet>)

  function Fetches(ps: seq<Packet>): seq<Op> {
    if ps == [] then [] else [Fetch(ps[0])] + Fetches(ps[1..])
  }

  function Directs(ps: seq<Packet>): seq<Op> {
    if ps == [] then [] else [Direct(ps[0])] + Directs(ps[1..])
  }

  function RoundOps(r: Round): seq<Op> {
    Fetches(r.fetched) + (if r.eof then [Eof] else []) + [WaitSender] + Directs(r.direct)
  }

  function Rounds(rs: seq<Round>): seq<Op> {
    if rs == [] then [] else RoundOps(rs[0]) + Rounds(rs[1..])
  }

  /** The whole copy: a round for the start and one for each iteration; unless the image is raw the header, for
      which a free buffer is taken as at the end of the file, and all that goes with it; the closing packet. */
  function CopyScript(rounds: seq<Round>, raw: bool, header: seq<Packet>): seq<Op> {
    Rounds(rounds) + ((if raw then [] else [Eof] + Directs(header)) + [Close])
  }

  predicate NonEmpty(ps: seq<Packet>) { forall k :: 0 <= k < |ps| ==> ps[k].len > 0 }

  lemma OneFirst(op: Op, rest: seq<Op>)
    ensures op.Fetch? && op.packet.len > 0 && Disciplined(rest, Running) ==>
      Disciplined([op] + rest, Idle) && Disciplined([op] + rest, Running)
    ensures op.Direct? && Disciplined(rest, Idle) ==> Disciplined([op] + rest, Idle)
  {
    assert ([op] + rest)[1..] == rest;
  }

  lemma {:induction false} FetchesFirst(ps: seq<Packet>, ph: Phase, rest: seq<Op>)
    requires NonEmpty(ps) && ph != AtEnd && Disciplined(rest, ph) && Disciplined(rest, Running)
    ensures Disciplined(Fetches(ps) + rest, ph)
  {
    if ps == [] {
      assert Fetches(ps) + rest == rest;
    } else {
      FetchesFirst(ps[1..], Running, rest);
      OneFirst(Fetch(ps[0]), Fetches(ps[1..]) + rest);
      assert Fetches(ps) + rest == [Fetch(ps[0])] + (Fetches(ps[1..]) + rest);
    }
  }

  lemma {:induction false} DirectsFirst(ps: seq<Packet>, rest: seq<Op>)
    requires Disciplined(rest, Idle)
    ensures Disciplined(Directs(ps) + rest, Idle)
  {
    if ps == [] {
      assert Directs(ps) + rest == rest;
    } else {
      DirectsFirst(ps[1..], rest);
      OneFirst(Direct(ps[0]), Directs(ps[1..]) + rest);
      assert Directs(ps) + rest == [Direct(ps[0])] + (Directs(ps[1..]) + rest);
    }
  }

  /** Waiting for the sender is right wherever the script stands. */
  lemma WaitFirst(rest: seq<Op>, eof: bool, ph: Phase)
    requires Disciplined(rest, Idle)
    ensures Disciplined((if eof then [Eof] else []) + [WaitSender] + rest, ph)
  {
    var waiting := [WaitSender] + rest;
    assert waiting[1..] == rest;
    if eof {
      assert [Eof] + [WaitSender] + rest == [Eof] + waiting && ([Eof] + waiting)[1..] == waiting;
    } else {
      assert [] + [WaitSender] + rest == waiting;
    }
  }

  lemma RoundFirst(r: Round, rest: seq<Op>)
    requires NonEmpty(r.fetched) && Disciplined(rest, Idle)
    ensures Disciplined(RoundOps(r) + rest, Idle)
  {
    var mid := if r.eof then [Eof] else [];
    DirectsFirst(r.direct, rest);
    WaitFirst(Directs(r.direct) + rest, r.eof, Idle);
    WaitFirst(Directs(r.direct) + rest, r.eof, Running);
    FetchesFirst(r.fetched, Idle, mid + [WaitSender] + (Directs(r.direct) + rest));
    assert RoundOps(r) + rest == Fetches(r.fetched) + (mid + [WaitSender] + (Directs(r.direct) + rest));
  }

  lemma {:induction false} RoundsFirst(rs: seq<Round>, rest: seq<Op>)
    requires (forall k :: 0 <= k < |rs| ==> NonEmpty(rs[k].fetched)) && Disciplined(rest, Idle)
    ensures Disciplined(Rounds(rs) + rest, Idle)
  {
    if rs == [] {
      assert Rounds(rs) + rest == rest;
    } else {
      RoundsFirst(rs[1..], rest);
      RoundFirst(rs[0], Rounds(rs[1..]) + rest);
      assert Rounds(rs) + rest == RoundOps(rs[0]) + (Rounds(rs[1..]) + rest);
    }
  }

  lemma CopyIsDisciplined(rounds: seq<Round>, raw: bool, header: seq<Packet>)
    requires forall k :: 0 <= k < |rounds| ==> NonEmpty(rounds[k].fetched)
    ensures Disciplined(CopyScript(rounds, raw, header), Idle)
  {
    var last := if raw then [Close] else Directs(header) + [Close];
    DirectsFirst(header, [Close]);
    if raw {
      assert [] + [Close] == last;
    } else {
      assert [Eof] + Directs(header) + [Close] == [Eof] + last && ([Eof] + last)[1..] == last;
    }
    RoundsFirst(rounds, (if raw then [] else [Eof] + Directs(header)) + [Close]);
  }

  /** What a copy puts on the wire. */
  function Contents(rounds: seq<Round>): seq<Packet> {
    if rounds == [] then [] else rounds[0].fetched + rounds[0].direct + Contents(rounds[1..])
  }

  lemma {:induction false} PacketsOfBoth(a: seq<Op>, b: seq<Op>)
    ensures Packets(a + b) == Packets(a) + Packets(b)
  {
    if a == [] {
      assert a + b == b;
    } else {
      PacketsOfBoth(a[1..], b);
      assert (a + b)[1..] == a[1..] + b;
    }
  }

  lemma {:induction false} PacketsOfList(ps: seq<Packet>)
    ensures Packets(Fetches(ps)) == ps && Packets(Directs(ps)) == ps
  {
    if ps != [] {
      PacketsOfList(ps[1..]);
      assert Fetches(ps)[1..] == Fetches(ps[1..]) && Directs(ps)[1..] == Directs(ps[1..]);
    }
  }

  lemma NoPackets(op: Op)
    requires !op.Fetch? && !op.Direct?
    ensures Packets([op]) == []
  {
  }

  /** Operations without packets in between add none. */
  lemma PacketsAround(ps: seq<Packet>, between: seq<Op>, qs: seq<Packet>)
    requires Packets(between) == []
    ensures Packets(Fetches(ps) + between + Directs(qs)) == ps + qs
  {
    PacketsOfBoth(Fetches(ps) + between, Directs(qs));
    PacketsOfBoth(Fetches(ps), between);
    PacketsOfList(ps);
    PacketsOfList(qs);
    assert ps + [] == ps;
  }

  lemma PacketsOfRound(r: Round)
    ensures Packets(RoundOps(r)) == r.fetched + r.direct
  {
    var mid := if r.eof then [Eof] else [];
    NoPackets(Eof);
    NoPackets(WaitSender);
    PacketsOfBoth(mid, [WaitSender]);
    PacketsAround(r.fetched, mid + [WaitSender], r.direct);
    assert RoundOps(r) == Fetches(r.fetched) + (mid + [WaitSender]) + Directs(r.direct);
  }

  lemma {:induction false} PacketsOfRounds(rs: seq<Round>)
    ensures Packets(Rounds(rs)) == Contents(rs)
  {
    if rs != [] {
      PacketsOfRound(rs[0]);
      PacketsOfRounds(rs[1..]);
      PacketsOfBoth(RoundOps(rs[0]), Rounds(rs[1..]));
    }
  }

  lemma PacketsOfCopy(rounds: seq<Round>, raw: bool, header: seq<Packet>)
    ensures Packets(CopyScript(rounds, raw, header)) == Contents(rounds) + if raw then [] else header
  {
    var end := if raw then [] else [Eof] + Directs(header);
    PacketsOfRounds(rounds);
    PacketsOfBoth(Rounds(rounds), end + [Close]);
    PacketsOfBoth(end, [Close]);
    PacketsOfBoth([Eof], Directs(header));
    PacketsOfList(header);
    NoPackets(Eof);
    NoPackets(Close);
  }

  /** A copy is safe, whatever it reads, and in the end all of it was written, in order and once. */
  lemma CopyIsSafe(rounds: seq<Round>, raw: bool, header: seq<Packet>, a: State)
    requires forall k :: 0 <= k < |rounds| ==> NonEmpty(rounds[k].fetched)
    requires Reached(s => Start0(CopyScript(rounds, raw, header), s), Step, a)
    ensures a.wire + a.Pending() == a.submitted && !FillsSending(a) && (a.c == Submit ==> a.s == SAsleep)
    ensures !(a.c == Finished && a.s == Done) ==> CanMove(a)
    ensures a.c == Finished && a.s == Done ==>
      exists d :: a.wire == Contents(rounds) + (if raw then [] else header) + [Packet(d, 0, 0)]
  {
    CopyIsDisciplined(rounds, raw, header);
    PacketsOfCopy(rounds, raw, header);
    HandoffIsSafe(CopyScript(rounds, raw, header), a);
  }
}
