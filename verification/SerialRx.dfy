/** Receive side of a serial port: `read`, `peek` and `available` interleaved
    with the receive interrupt.  One foreground step is one access to shared
    memory; the interrupt handler is one step. */
module SerialRx {
  import opened Bits
  import opened Options
  import opened Ring

  datatype Op = Read | Peek | Available

  /** The next shared access of the foreground code. */
  datatype Pc = Idle | LoadHead(op: Op) | LoadTail(op: Op) | LoadIndex(op: Op) | LoadByte(op: Op)
              | LoadAdvance | StoreTail

  /** What a completed call returned; `None` and a negative count stand for -1. */
  datatype Event = ReadBack(byte: Option<Byte>) | PeekBack(byte: Option<Byte>) | Counted(n: int)

  /** One byte taken from UDR: whether it went into the ring, and how many bytes
      the ring held at that moment. */
  datatype Arrival = Arrival(byte: Byte, kept: bool, load: nat)

  /** `seen` is the number of accepted bytes when `head` was last loaded;
      `accepted`, `returned`, `arrivals` and `log` record the run. */
  datatype State = State(
    open: bool, bytes: seq<Byte>, head: nat, tail: nat, mask: nat,
    pc: Pc, h: nat, at: nat, c: Byte,
    seen: nat, accepted: seq<Byte>, returned: seq<Byte>, arrivals: seq<Arrival>, log: seq<Event>)
  {
    predicate Shaped() {
      |bytes| == mask + 1 && head <= mask && tail <= mask && at <= mask
    }

    function Pending(): seq<Byte>
      requires Shaped()
    {
      Contents(bytes, head, tail, mask)
    }
  }

  datatype Action = Call(op: Op) | Foreground | Interrupt(c: Byte)

  function Opened(bytes: seq<Byte>, mask: nat): State {
    State(true, bytes, 0, 0, mask, Idle, 0, 0, 0, 0, [], [], [], [])
  }

  /** The result of a call that found nothing to return. */
  function Nothing(op: Op): Event {
    match op
    case Read => ReadBack(None)
    case Peek => PeekBack(None)
    case Available => Counted(-1)
  }

  function Start(s: State, op: Op): State {
    if !s.pc.Idle? then s
    else if !s.open then s.(log := s.log + [Nothing(op)])
    else s.(pc := LoadHead(op))
  }

  function Advance(s: State): (r: State)
    requires s.Shaped()
    ensures r.Shaped()
  {
    match s.pc
    case Idle => s
    case LoadHead(op) => s.(h := s.head, seen := |s.accepted|, pc := LoadTail(op))
    case LoadTail(Available) => s.(log := s.log + [Counted(Count(s.h, s.tail, s.mask))], pc := Idle)
    case LoadTail(op) =>
      if s.h == s.tail then s.(log := s.log + [Nothing(op)], pc := Idle) else s.(pc := LoadIndex(op))
    case LoadIndex(op) => s.(at := s.tail, pc := LoadByte(op))
    case LoadByte(Read) => s.(c := s.bytes[s.at], pc := LoadAdvance)
    case LoadByte(_) => s.(log := s.log + [PeekBack(Some(s.bytes[s.at]))], pc := Idle)
    case LoadAdvance => s.(at := s.tail, pc := StoreTail)
    case StoreTail =>
      s.(tail := Next(s.at, s.mask), returned := s.returned + [s.c],
         log := s.log + [ReadBack(Some(s.c))], pc := Idle)
  }

  /** The receive handler; a byte is dropped when `head` would meet `tail`. */
  function Receive(s: State, c: Byte): (r: State)
    requires s.Shaped()
    ensures r.Shaped()
  {
    var i := Next(s.head, s.mask);
    var load := Count(s.head, s.tail, s.mask);
    if i != s.tail then
      s.(bytes := s.bytes[s.head := c], head := i, accepted := s.accepted + [c],
         arrivals := s.arrivals + [Arrival(c, true, load)])
    else
      s.(arrivals := s.arrivals + [Arrival(c, false, load)])
  }

  function Step(s: State, a: Action): (r: State)
    requires s.Shaped()
    ensures r.Shaped()
  {
    match a
    case Call(op) => Start(s, op)
    case Foreground => Advance(s)
    case Interrupt(c) => Receive(s, c)
  }

  function Run(s: State, acts: seq<Action>): (r: State)
    requires s.Shaped()
    ensures r.Shaped()
    decreases |acts|
  {
    if acts == [] then s else Run(Step(s, acts[0]), acts[1..])
  }

  // ---- vocabulary for the log ------------------------------------------------

  predicate IsRead(e: Event) {
    e.ReadBack? && e.byte.Some?
  }

  /** Successful reads among the first `n` completed calls. */
  function Reads(log: seq<Event>, n: nat): nat
    requires n <= |log|
  {
    if n == 0 then 0 else Reads(log, n - 1) + if IsRead(log[n - 1]) then 1 else 0
  }

  function Kept(arrivals: seq<Arrival>): seq<Byte> {
    if arrivals == [] then []
    else
      var last := arrivals[|arrivals| - 1];
      Kept(arrivals[..|arrivals| - 1]) + if last.kept then [last.byte] else []
  }

  lemma {:induction false} ReadsOfPrefix(log: seq<Event>, e: Event, n: nat)
    requires n <= |log|
    ensures Reads(log + [e], n) == Reads(log, n)
  {
    if n > 0 { ReadsOfPrefix(log, e, n - 1); }
  }

  // ---- the invariant -----------------------------------------------------------

  ghost predicate RingInv(s: State) {
    && s.Shaped()
    && Holds(s.bytes, s.head, s.tail, s.mask, s.accepted, |s.returned|)
    && s.returned == s.accepted[..|s.returned|]
  }

  /** What the reader's local variables mean at each of its steps. */
  ghost predicate ReaderInv(s: State)
    requires s.Shaped()
  {
    && (!s.pc.Idle? && !s.pc.LoadHead? ==>
          |s.returned| <= s.seen <= |s.accepted| && s.h == Slot(s.seen, s.mask))
    && (s.pc.LoadIndex? || s.pc.LoadByte? || s.pc.LoadAdvance? || s.pc.StoreTail? ==>
          |s.returned| < |s.accepted|)
    && (s.pc.LoadByte? || s.pc.StoreTail? ==> s.at == s.tail)
    && (s.pc.LoadAdvance? || s.pc.StoreTail? ==>
          |s.returned| < |s.accepted| && s.c == s.accepted[|s.returned|])
    && (s.pc.LoadIndex? || s.pc.LoadByte? ==> !s.pc.op.Available?)
  }

  /** The bytes a count promised were all accepted by the time `limit` bytes were. */
  predicate Covered(log: seq<Event>, i: nat, limit: int)
    requires i < |log|
  {
    log[i].Counted? ==> Reads(log, i) + log[i].n <= limit
  }

  /** A value read or peeked is the oldest byte not read yet. */
  predicate Oldest(log: seq<Event>, i: nat, accepted: seq<Byte>)
    requires i < |log|
  {
    !log[i].Counted? && log[i].byte.Some? ==>
      Reads(log, i) < |accepted| && log[i].byte.value == accepted[Reads(log, i)]
  }

  /** A read comes back empty only after every byte promised earlier was read. */
  predicate Honoured(log: seq<Event>, i: nat, j: nat)
    requires i < j < |log|
  {
    log[i].Counted? && log[j] == ReadBack(None) ==> Reads(log, i) + log[i].n <= Reads(log, j)
  }

  predicate Promises(log: seq<Event>, limit: int) {
    forall i: nat :: i < |log| ==> Covered(log, i, limit)
  }

  predicate LogInv(log: seq<Event>, accepted: seq<Byte>) {
    && (forall i: nat :: i < |log| ==> Oldest(log, i, accepted))
    && (forall i: nat, j: nat :: i < j < |log| ==> Honoured(log, i, j))
  }

  /** What the log says about the bytes returned and accepted. */
  predicate Logged(s: State) {
    && Reads(s.log, |s.log|) == |s.returned|
    && LogInv(s.log, s.accepted)
    && Promises(s.log, |s.accepted|)
    && (s.pc.LoadTail? ==> Promises(s.log, s.seen))
  }

  /** What was accepted, and why the rest was not. */
  predicate Arrived(s: State) {
    && s.accepted == Kept(s.arrivals)
    && (forall a <- s.arrivals :: a.load <= s.mask && (a.kept <==> a.load < s.mask))
  }

  ghost predicate Inv(s: State) {
    RingInv(s) && ReaderInv(s) && Logged(s) && Arrived(s)
  }

  /** Appending one more completed call to the log. */
  lemma LogGrows(log: seq<Event>, e: Event, accepted: seq<Byte>, limit: int)
    requires LogInv(log, accepted) && Promises(log, limit)
    requires var taken := Reads(log, |log|);
             && (!e.Counted? && e.byte.Some? ==> taken < |accepted| && e.byte.value == accepted[taken])
             && (e == ReadBack(None) ==> limit <= taken)
             && (e.Counted? ==> taken + e.n <= limit)
    ensures LogInv(log + [e], accepted) && Promises(log + [e], limit)
    ensures Reads(log + [e], |log| + 1) == Reads(log, |log|) + if IsRead(e) then 1 else 0
  {
    var log' := log + [e];
    ReadsOfPrefix(log, e, |log|);
    forall i: nat | i < |log'|
      ensures Oldest(log', i, accepted) && Covered(log', i, limit)
    {
      ReadsOfPrefix(log, e, i);
      assert i < |log| ==> Oldest(log, i, accepted) && Covered(log, i, limit);
    }
    forall i: nat, j: nat | i < j < |log'|
      ensures Honoured(log', i, j)
    {
      ReadsOfPrefix(log, e, i);
      ReadsOfPrefix(log, e, j);
      assert Covered(log, i, limit);
      assert j < |log| ==> Honoured(log, i, j);
    }
  }

  lemma ReceiveKeepsInv(s: State, c: Byte)
    requires Inv(s)
    ensures Inv(Receive(s, c))
  {
    ReceiveKeepsRing(s, c);
    ReceiveKeepsLog(s, c);
    ReceiveKeepsArrivals(s, c);
  }

  lemma ReceiveKeepsRing(s: State, c: Byte)
    requires RingInv(s) && ReaderInv(s)
    ensures RingInv(Receive(s, c)) && ReaderInv(Receive(s, c))
  {
    HoldsMeans(s.bytes, s.head, s.tail, s.mask, s.accepted, |s.returned|);
    if Next(s.head, s.mask) != s.tail {
      StoreFree(s.bytes, s.head, s.tail, s.mask, s.accepted, |s.returned|, c);
      Push(s.bytes[s.head := c], s.head, s.tail, s.mask, s.accepted, |s.returned|);
    }
  }

  lemma ReceiveKeepsLog(s: State, c: Byte)
    requires s.Shaped() && Logged(s)
    ensures Logged(Receive(s, c))
  {
    CoveredLater(s.log, |s.accepted|, |s.accepted| + 1);
    AcceptedGrows(s.log, s.accepted, c);
  }

  lemma ReceiveKeepsArrivals(s: State, c: Byte)
    requires RingInv(s) && Arrived(s)
    ensures Arrived(Receive(s, c))
  {
    HoldsMeans(s.bytes, s.head, s.tail, s.mask, s.accepted, |s.returned|);
    var t := Receive(s, c);
    assert t.arrivals[..|t.arrivals| - 1] == s.arrivals;
  }

  /** Comparing a stale `head` with `tail` tells about the moment it was loaded. */
  lemma Snapshot(s: State)
    requires RingInv(s) && ReaderInv(s) && s.pc.LoadTail?
    ensures Count(s.h, s.tail, s.mask) == s.seen - |s.returned|
    ensures s.h == s.tail <==> s.seen == |s.returned|
  {
    CountOfSlots(|s.returned|, s.seen, s.mask);
    SlotInjective(|s.returned|, s.seen, s.mask);
  }

  /** The log after `tail` was loaded: a count, nothing, or not yet anything. */
  lemma LoadTailKeepsLog(s: State)
    requires RingInv(s) && ReaderInv(s) && Logged(s) && s.pc.LoadTail?
    ensures Logged(Advance(s))
  {
    Snapshot(s);
    if s.pc.op.Available? {
      LogGrows(s.log, Counted(s.seen - |s.returned|), s.accepted, s.seen);
    } else if s.h == s.tail {
      LogGrows(s.log, Nothing(s.pc.op), s.accepted, s.seen);
    }
    CoveredLater(Advance(s).log, s.seen, |s.accepted|);
  }

  lemma CoveredLater(log: seq<Event>, limit: int, later: int)
    requires limit <= later
    ensures Promises(log, limit) ==> Promises(log, later)
  {
    if Promises(log, limit) {
      forall i: nat | i < |log| ensures Covered(log, i, later) {
        assert Covered(log, i, limit);
      }
    }
  }

  lemma AcceptedGrows(log: seq<Event>, accepted: seq<Byte>, c: Byte)
    requires LogInv(log, accepted)
    ensures LogInv(log, accepted + [c])
  {
    forall i: nat | i < |log| ensures Oldest(log, i, accepted + [c]) {
      assert Oldest(log, i, accepted);
    }
  }

  lemma LoadByteKeepsLog(s: State)
    requires RingInv(s) && ReaderInv(s) && Logged(s) && s.pc.LoadByte?
    ensures Logged(Advance(s))
  {
    HoldsMeans(s.bytes, s.head, s.tail, s.mask, s.accepted, |s.returned|);
    if s.pc.op.Peek? {
      LogGrows(s.log, PeekBack(Some(s.bytes[s.at])), s.accepted, |s.accepted|);
    }
  }

  lemma StoreTailKeepsLog(s: State)
    requires ReaderInvOf(s) && Logged(s) && s.pc.StoreTail?
    ensures Logged(Advance(s))
  {
    LogGrows(s.log, ReadBack(Some(s.c)), s.accepted, |s.accepted|);
  }

  ghost predicate ReaderInvOf(s: State) {
    s.Shaped() && ReaderInv(s)
  }

  lemma AdvanceKeepsLog(s: State)
    requires RingInv(s) && ReaderInv(s) && Logged(s)
    ensures Logged(Advance(s))
  {
    match s.pc
    case LoadHead(_) =>
    case LoadTail(_) => LoadTailKeepsLog(s);
    case LoadByte(_) => LoadByteKeepsLog(s);
    case StoreTail => StoreTailKeepsLog(s);
    case _ =>
  }

  lemma StoreTailKeepsRing(s: State)
    requires RingInv(s) && ReaderInv(s) && s.pc.StoreTail?
    ensures RingInv(Advance(s))
  {
    Pop(s.bytes, s.head, s.tail, s.mask, s.accepted, |s.returned|);
    PrefixGrows(s.returned, s.accepted, s.c);
    var t := Advance(s);
    assert t.tail == Next(s.tail, s.mask) && t.returned == s.returned + [s.c];
    assert t.bytes == s.bytes && t.head == s.head && t.mask == s.mask && t.accepted == s.accepted;
  }

  lemma PrefixGrows(taken: seq<Byte>, all: seq<Byte>, c: Byte)
    requires |taken| < |all| && taken == all[..|taken|] && c == all[|taken|]
    ensures taken + [c] == all[..|taken| + 1]
  {
  }

  /** No other step changes the ring or what was returned. */
  lemma OnlyStoreTailTakes(s: State)
    requires s.Shaped() && !s.pc.StoreTail?
    ensures var t := Advance(s);
            && t.bytes == s.bytes && t.head == s.head && t.tail == s.tail && t.mask == s.mask
            && t.accepted == s.accepted && t.returned == s.returned
  {
  }

  lemma AdvanceKeepsRing(s: State)
    requires RingInv(s) && ReaderInv(s)
    ensures RingInv(Advance(s))
  {
    if s.pc.StoreTail? {
      StoreTailKeepsRing(s);
    } else {
      OnlyStoreTailTakes(s);
    }
  }

  lemma LoadHeadKeepsReader(s: State)
    requires RingInv(s) && ReaderInv(s) && s.pc.LoadHead?
    ensures ReaderInv(Advance(s))
  {
  }

  lemma LoadTailKeepsReader(s: State)
    requires RingInv(s) && ReaderInv(s) && s.pc.LoadTail?
    ensures ReaderInv(Advance(s))
  {
    Snapshot(s);
  }

  lemma LoadByteKeepsReader(s: State)
    requires RingInv(s) && ReaderInv(s) && s.pc.LoadByte?
    ensures ReaderInv(Advance(s))
  {
    HoldsMeans(s.bytes, s.head, s.tail, s.mask, s.accepted, |s.returned|);
  }

  lemma AdvanceKeepsReader(s: State)
    requires RingInv(s) && ReaderInv(s)
    ensures ReaderInv(Advance(s))
  {
    match s.pc
    case LoadHead(_) => LoadHeadKeepsReader(s);
    case LoadTail(_) => LoadTailKeepsReader(s);
    case LoadByte(_) => LoadByteKeepsReader(s);
    case _ =>
  }

  lemma AdvanceKeepsArrivals(s: State)
    requires s.Shaped() && Arrived(s)
    ensures Arrived(Advance(s))
  {
    var t := Advance(s);
    assert t.arrivals == s.arrivals && t.accepted == s.accepted && t.mask == s.mask;
  }

  lemma AdvanceKeepsInv(s: State)
    requires Inv(s)
    ensures Inv(Advance(s))
  {
    AdvanceKeepsRing(s);
    AdvanceKeepsReader(s);
    AdvanceKeepsLog(s);
    AdvanceKeepsArrivals(s);
  }

  lemma StepKeepsInv(s: State, a: Action)
    requires Inv(s) && s.open
    ensures Inv(Step(s, a)) && Step(s, a).open && Step(s, a).mask == s.mask
  {
    match a
    case Call(op) =>
    case Foreground => AdvanceKeepsInv(s);
    case Interrupt(c) => ReceiveKeepsInv(s, c);
  }

  lemma OpenedInv(bytes: seq<Byte>, mask: nat)
    requires IsMask(mask) && |bytes| == mask + 1
    ensures Inv(Opened(bytes, mask))
  {
  }

  lemma {:induction false} RunKeepsInv(s: State, acts: seq<Action>)
    requires Inv(s) && s.open
    ensures Inv(Run(s, acts)) && Run(s, acts).open && Run(s, acts).mask == s.mask
    decreases |acts|
  {
    if acts == [] {
    } else {
      StepKeepsInv(s, acts[0]);
      RunKeepsInv(Step(s, acts[0]), acts[1..]);
    }
  }

  // ---- one call with no interrupt inside it ------------------------------------

  /** A whole `read` with no interrupt between its steps. */
  function ReadAlone(s: State): (r: State)
    requires s.Shaped()
    ensures r.Shaped()
  {
    Advance(Advance(Advance(Advance(Advance(Advance(Start(s, Read)))))))
  }

  lemma ReadAloneIs(s: State)
    requires s.Shaped() && s.open && s.pc.Idle?
    ensures s.head == s.tail ==>
              ReadAlone(s) == s.(h := s.head, seen := |s.accepted|, log := s.log + [ReadBack(None)])
    ensures s.head != s.tail ==>
              var c := s.bytes[s.tail];
              ReadAlone(s) == s.(h := s.head, seen := |s.accepted|, at := s.tail, c := c,
                                 tail := Next(s.tail, s.mask), returned := s.returned + [c],
                                 log := s.log + [ReadBack(Some(c))])
  {
    var s2 := Advance(Advance(Start(s, Read)));
    if s.head != s.tail {
      assert s2 == s.(h := s.head, seen := |s.accepted|, pc := LoadIndex(Read));
      var s5 := Advance(Advance(Advance(s2)));
      assert s5.pc.StoreTail? && s5.c == s.bytes[s.tail] && s5.at == s.tail;
    }
  }

  lemma ReadAloneKeepsInv(s: State)
    requires Inv(s) && s.open && s.pc.Idle?
    ensures Inv(ReadAlone(s))
  {
    var t := Start(s, Read);
    AdvanceKeepsInv(t); t := Advance(t);
    AdvanceKeepsInv(t); t := Advance(t);
    AdvanceKeepsInv(t); t := Advance(t);
    AdvanceKeepsInv(t); t := Advance(t);
    AdvanceKeepsInv(t); t := Advance(t);
    AdvanceKeepsInv(t);
  }

  /** The ring is the accepted bytes not returned yet; `tail` is at the oldest. */
  lemma OldestPending(s: State)
    requires Inv(s)
    ensures s.Pending() == s.accepted[|s.returned|..]
    ensures s.head == s.tail <==> s.Pending() == []
    ensures s.head != s.tail ==> s.Pending()[0] == s.bytes[s.tail]
  {
    HoldsMeans(s.bytes, s.head, s.tail, s.mask, s.accepted, |s.returned|);
    HoldsContents(s.bytes, s.head, s.tail, s.mask, s.accepted, |s.returned|);
  }

  // ---- main results ------------------------------------------------------------

  /** Bytes returned by `read`, then the ring, are the accepted bytes in order;
      every value read or peeked is the oldest byte not read yet. */
  lemma ReceiveIsFifo(bytes: seq<Byte>, mask: nat, acts: seq<Action>)
    requires IsMask(mask) && |bytes| == mask + 1
    ensures var s := Run(Opened(bytes, mask), acts);
            && s.returned + s.Pending() == s.accepted
            && |s.returned| == Reads(s.log, |s.log|)
            && forall i: nat :: i < |s.log| ==> Oldest(s.log, i, s.accepted)
  {
    RunKeepsInv(Opened(bytes, mask), acts);
    var s := Run(Opened(bytes, mask), acts);
    HoldsContents(s.bytes, s.head, s.tail, s.mask, s.accepted, |s.returned|);
  }

  /** A byte is dropped exactly when it arrives while the ring holds `mask`
      bytes; all the others, and nothing else, are accepted. */
  lemma DropsOnlyWhenFull(bytes: seq<Byte>, mask: nat, acts: seq<Action>)
    requires IsMask(mask) && |bytes| == mask + 1
    ensures var s := Run(Opened(bytes, mask), acts);
            && s.accepted == Kept(s.arrivals)
            && forall a <- s.arrivals :: a.kept <==> a.load != mask
  {
    RunKeepsInv(Opened(bytes, mask), acts);
  }

  /** After `available` returned n, the next n reads all succeed: a read that
      comes back empty has at least n successful reads between the two calls. */
  lemma AvailableIsAPromise(bytes: seq<Byte>, mask: nat, acts: seq<Action>, i: nat, j: nat)
    requires IsMask(mask) && |bytes| == mask + 1
    requires var log := Run(Opened(bytes, mask), acts).log;
             i < j < |log| && log[i].Counted? && log[j] == ReadBack(None)
    ensures var log := Run(Opened(bytes, mask), acts).log;
            Reads(log, j) - Reads(log, i) >= log[i].n
  {
    RunKeepsInv(Opened(bytes, mask), acts);
    assert Honoured(Run(Opened(bytes, mask), acts).log, i, j);
  }

  // ---- calls complete ------------------------------------------------------------------

  function Rank(pc: Pc): nat {
    match pc
    case Idle => 0 case StoreTail => 1 case LoadAdvance => 2 case LoadByte(_) => 3
    case LoadIndex(_) => 4 case LoadTail(_) => 5 case LoadHead(_) => 6
  }

  function ForegroundSteps(acts: seq<Action>): nat {
    if acts == [] then 0 else (if acts[0].Foreground? then 1 else 0) + ForegroundSteps(acts[1..])
  }

  predicate NoCalls(acts: seq<Action>) {
    forall a <- acts :: !a.Call?
  }

  predicate Calling(pc: Pc, op: Op) {
    match pc
    case Idle => false
    case LoadAdvance => op == Read
    case StoreTail => op == Read
    case _ => pc.op == op
  }

  /** In the middle of a call `op` that started in `s`: nothing is returned yet. */
  predicate InCall(s: State, t: State, op: Op) {
    && Calling(t.pc, op) && t.log == s.log && t.returned == s.returned && s.accepted <= t.accepted
    && (t.pc.LoadTail? ==> |s.accepted| <= t.seen)
  }

  /** What the completed call has returned: a count between the bytes unread at its start
      and at its end, or the oldest unread byte, which only a call that starts on an
      empty ring may miss. */
  predicate Result(s: State, t: State, op: Op, e: Event) {
    if op == Available then
      e.Counted? && |s.accepted| - |s.returned| <= e.n <= |t.accepted| - |s.returned|
    else
      && (if op == Read then e.ReadBack? else e.PeekBack?)
      && (|s.returned| < |s.accepted| ==> e.byte.Some?)
      && (e.byte.Some? ==> |s.returned| < |t.accepted| && e.byte.value == t.accepted[|s.returned|])
  }

  predicate Finished(s: State, t: State, op: Op) {
    && t.pc.Idle? && |t.log| == |s.log| + 1 && t.log[..|s.log|] == s.log && s.accepted <= t.accepted
    && Result(s, t, op, t.log[|s.log|])
    && t.returned == if IsRead(t.log[|s.log|]) then s.returned + [t.log[|s.log|].byte.value] else s.returned
  }

  /** One step nearer to the end, or there. */
  predicate Nearer(s: State, t: State, u: State, op: Op) {
    (InCall(s, u, op) && Rank(u.pc) == Rank(t.pc) - 1) || Finished(s, u, op)
  }

  lemma LoadTailInCall(s: State, t: State, op: Op)
    requires Inv(t) && InCall(s, t, op) && t.pc.LoadTail?
    ensures Nearer(s, t, Advance(t), op)
  {
    Snapshot(t);
  }

  lemma LoadByteInCall(s: State, t: State, op: Op)
    requires Inv(t) && InCall(s, t, op) && t.pc.LoadByte?
    ensures Nearer(s, t, Advance(t), op)
  {
    HoldsMeans(t.bytes, t.head, t.tail, t.mask, t.accepted, |t.returned|);
  }

  lemma StoreTailInCall(s: State, t: State, op: Op)
    requires Inv(t) && InCall(s, t, op) && t.pc.StoreTail?
    ensures Nearer(s, t, Advance(t), op)
  {
  }

  lemma LoadInCall(s: State, t: State, op: Op)
    requires t.Shaped() && InCall(s, t, op) && (t.pc.LoadHead? || t.pc.LoadIndex? || t.pc.LoadAdvance?)
    ensures Nearer(s, t, Advance(t), op)
  {
  }

  lemma AdvanceInCall(s: State, t: State, op: Op)
    requires Inv(t) && InCall(s, t, op)
    ensures Nearer(s, t, Advance(t), op)
  {
    match t.pc
    case LoadTail(_) => LoadTailInCall(s, t, op);
    case LoadByte(_) => LoadByteInCall(s, t, op);
    case StoreTail => StoreTailInCall(s, t, op);
    case _ => LoadInCall(s, t, op);
  }

  lemma ReceiveInCall(s: State, t: State, op: Op, c: Byte)
    requires t.Shaped()
    ensures InCall(s, t, op) ==> InCall(s, Receive(t, c), op) && Receive(t, c).pc == t.pc
    ensures Finished(s, t, op) ==> Finished(s, Receive(t, c), op)
  {
  }

  lemma {:induction false} RunInCall(s: State, t: State, op: Op, acts: seq<Action>)
    requires Inv(t) && t.open && NoCalls(acts)
    requires (InCall(s, t, op) && Rank(t.pc) <= ForegroundSteps(acts)) || Finished(s, t, op)
    ensures Finished(s, Run(t, acts), op)
    decreases |acts|
  {
    if acts != [] {
      var a := acts[0];
      StepKeepsInv(t, a);
      if a.Interrupt? {
        ReceiveInCall(s, t, op, a.c);
      } else if InCall(s, t, op) {
        AdvanceInCall(s, t, op);
      }
      RunInCall(s, Step(t, a), op, acts[1..]);
    }
  }

  lemma {:induction false} StaysInCall(s: State, t: State, op: Op, acts: seq<Action>)
    requires Inv(t) && t.open && NoCalls(acts) && (InCall(s, t, op) || Finished(s, t, op))
    ensures InCall(s, Run(t, acts), op) || Finished(s, Run(t, acts), op)
    decreases |acts|
  {
    if acts != [] {
      var a := acts[0];
      StepKeepsInv(t, a);
      if a.Interrupt? {
        ReceiveInCall(s, t, op, a.c);
      } else if InCall(s, t, op) {
        AdvanceInCall(s, t, op);
      }
      StaysInCall(s, Step(t, a), op, acts[1..]);
    }
  }

  /** A call is over after six of its own steps, whatever interrupts come in between.  It
      adds one result to the log: `available` a count between what was unread before
      and after, `read` and `peek` the oldest unread byte, or nothing if none was there at
      the start; and `read` takes what it returns. */
  lemma CallCompletes(bytes: seq<Byte>, mask: nat, before: seq<Action>, op: Op, acts: seq<Action>)
    requires IsMask(mask) && |bytes| == mask + 1
    requires Run(Opened(bytes, mask), before).pc.Idle? && NoCalls(acts) && ForegroundSteps(acts) >= 6
    ensures var s := Run(Opened(bytes, mask), before);
            Finished(s, Run(s, [Call(op)] + acts), op)
  {
    var s := Run(Opened(bytes, mask), before);
    OpenedInv(bytes, mask);
    RunKeepsInv(Opened(bytes, mask), before);
    StepKeepsInv(s, Call(op));
    assert ([Call(op)] + acts)[1..] == acts;
    RunInCall(s, Step(s, Call(op)), op, acts);
  }
}
