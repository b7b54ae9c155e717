/** Transmit side of a serial port: `write` interleaved with the data-register
    interrupt.  One foreground step is one access to shared memory; the
    interrupt handler is one step, because it runs with interrupts blocked. */
module SerialTx {
  import opened Bits
  import opened Ring

  /** A control register, as the set of its bits that are 1. */
  type Register = set<nat>

  /** `_BV(UDRIE0)`: the data-register-empty interrupt enable. */
  const TX_BITS: Register := {5}

  /** The next shared access of the writer. */
  datatype Pc = Idle | LoadHead | TestRoom | LoadIndex | StoreByte | StoreHead | LoadControl | StoreControl

  /** `calls`, `committed` and `sent` record the history of one run: bytes
      handed to `write`, bytes whose `head` update was made, bytes put into UDR. */
  datatype State = State(
    open: bool, bytes: seq<Byte>, head: nat, tail: nat, mask: nat, control: Register,
    pc: Pc, c: Byte, i: nat, at: nat, reg: Register,
    calls: seq<Byte>, committed: seq<Byte>, sent: seq<Byte>)
  {
    predicate Shaped() {
      |bytes| == mask + 1 && head <= mask && tail <= mask && i <= mask && at <= mask
    }

    predicate Enabled() {
      5 in control
    }

    function Pending(): seq<Byte>
      requires Shaped()
    {
      Contents(bytes, head, tail, mask)
    }

    /** The writer holds a byte that is not in the ring yet. */
    predicate Sending() {
      pc.LoadHead? || pc.TestRoom? || pc.LoadIndex? || pc.StoreByte? || pc.StoreHead?
    }

    /** The writer has stored `head` but not yet set the enable bit. */
    predicate BeforeEnable() {
      pc.LoadControl? || pc.StoreControl?
    }
  }

  datatype Action = Call(c: Byte) | Foreground | Interrupt

  /** A freshly opened port. */
  function Opened(bytes: seq<Byte>, mask: nat, control: Register): State {
    State(true, bytes, 0, 0, mask, control, Idle, 0, 0, 0, {}, [], [], [])
  }

  function Write(s: State): (r: State)
    requires s.Shaped()
    ensures r.Shaped()
  {
    match s.pc
    case Idle => s
    case LoadHead => s.(i := Next(s.head, s.mask), pc := TestRoom)
    case TestRoom => if s.i == s.tail then s else s.(pc := LoadIndex)
    case LoadIndex => s.(at := s.head, pc := StoreByte)
    case StoreByte => s.(bytes := s.bytes[s.at := s.c], pc := StoreHead)
    case StoreHead => s.(head := s.i, committed := s.committed + [s.c], pc := LoadControl)
    case LoadControl => s.(reg := s.control, pc := StoreControl)
    case StoreControl => s.(control := s.reg + TX_BITS, pc := Idle)
  }

  /** The handler; the hardware calls it only while its enable bit is set. */
  function Transmit(s: State): (r: State)
    requires s.Shaped()
    ensures r.Shaped()
  {
    if !s.Enabled() then s
    else if s.tail != s.head then
      s.(sent := s.sent + [s.bytes[s.tail]], tail := Next(s.tail, s.mask))
    else
      s.(control := s.control - TX_BITS)
  }

  function Step(s: State, a: Action): (r: State)
    requires s.Shaped()
    ensures r.Shaped()
  {
    match a
    case Call(c) =>
      if s.open && s.pc.Idle? then s.(c := c, calls := s.calls + [c], pc := LoadHead) else s
    case Foreground => Write(s)
    case Interrupt => Transmit(s)
  }

  function Run(s: State, acts: seq<Action>): (r: State)
    requires s.Shaped()
    ensures r.Shaped()
    decreases |acts|
  {
    if acts == [] then s else Run(Step(s, acts[0]), acts[1..])
  }

  /** The ring holds what was committed and not sent. */
  ghost predicate RingInv(s: State) {
    && s.Shaped()
    && Holds(s.bytes, s.head, s.tail, s.mask, s.committed, |s.sent|)
    && s.sent == s.committed[..|s.sent|]
  }

  /** What the writer's local variables mean at each of its steps. */
  ghost predicate WriterInv(s: State)
    requires s.Shaped()
  {
    && s.calls == s.committed + (if s.Sending() then [s.c] else [])
    && (s.Sending() && !s.pc.LoadHead? ==> s.i == Next(s.head, s.mask))
    && (s.pc.LoadIndex? || s.pc.StoreByte? || s.pc.StoreHead? ==> |s.committed| - |s.sent| < s.mask)
    && (s.pc.StoreByte? || s.pc.StoreHead? ==> s.at == s.head)
    && (s.pc.StoreHead? ==> s.bytes[s.head] == s.c)
  }

  /** Queued bytes have an interrupt coming. */
  predicate WakeInv(s: State) {
    && (s.pc.StoreControl? ==> s.reg - TX_BITS == s.control - TX_BITS)
    && (|s.committed| > |s.sent| && !s.BeforeEnable() ==> s.Enabled())
  }

  /** What every step keeps. */
  ghost predicate Inv(s: State) {
    RingInv(s) && WriterInv(s) && WakeInv(s)
  }

  ghost predicate Reachable(s: State) {
    exists bytes, mask, control, acts :: IsRun(bytes, mask, control, acts, s)
  }

  ghost predicate IsRun(bytes: seq<Byte>, mask: nat, control: Register, acts: seq<Action>, s: State) {
    IsMask(mask) && |bytes| == mask + 1 && s == Run(Opened(bytes, mask, control), acts)
  }

  lemma WriteKeepsInv(s: State)
    requires Inv(s)
    ensures Inv(Write(s))
    ensures Write(s).control - TX_BITS == s.control - TX_BITS
  {
    WriteKeepsRing(s);
    WriteKeepsWriter(s);
    WriteKeepsWake(s);
  }

  lemma StoreByteKeepsRing(s: State)
    requires RingInv(s) && WriterInv(s) && s.pc.StoreByte?
    ensures RingInv(Write(s))
  {
    StoreFree(s.bytes, s.head, s.tail, s.mask, s.committed, |s.sent|, s.c);
  }

  lemma StoreHeadKeepsRing(s: State)
    requires RingInv(s) && WriterInv(s) && s.pc.StoreHead?
    ensures RingInv(Write(s))
  {
    Push(s.bytes, s.head, s.tail, s.mask, s.committed, |s.sent|);
  }

  lemma WriteKeepsRing(s: State)
    requires RingInv(s) && WriterInv(s)
    ensures RingInv(Write(s))
  {
    match s.pc
    case StoreByte => StoreByteKeepsRing(s);
    case StoreHead => StoreHeadKeepsRing(s);
    case _ =>
  }

  lemma WriteKeepsWriter(s: State)
    requires RingInv(s) && WriterInv(s)
    ensures WriterInv(Write(s))
  {
    HoldsMeans(s.bytes, s.head, s.tail, s.mask, s.committed, |s.sent|);
  }

  lemma WriteKeepsWake(s: State)
    requires s.Shaped() && WakeInv(s)
    ensures WakeInv(Write(s)) && Write(s).control - TX_BITS == s.control - TX_BITS
  {
  }

  lemma TransmitKeepsInv(s: State)
    requires Inv(s)
    ensures Inv(Transmit(s))
    ensures Transmit(s).control - TX_BITS == s.control - TX_BITS
    ensures s.Enabled() && s.tail != s.head ==>
              |s.sent| < |s.committed| && Transmit(s).sent == s.sent + [s.committed[|s.sent|]]
  {
    HoldsMeans(s.bytes, s.head, s.tail, s.mask, s.committed, |s.sent|);
    if s.Enabled() && s.tail != s.head {
      Pop(s.bytes, s.head, s.tail, s.mask, s.committed, |s.sent|);
    }
  }

  lemma StepKeepsInv(s: State, a: Action)
    requires Inv(s)
    ensures Inv(Step(s, a))
    ensures Step(s, a).control - TX_BITS == s.control - TX_BITS
    ensures Step(s, a).mask == s.mask
  {
    match a
    case Call(c) =>
    case Foreground => WriteKeepsInv(s);
    case Interrupt => TransmitKeepsInv(s);
  }

  lemma {:induction false} RunKeepsInv(s: State, acts: seq<Action>)
    requires Inv(s)
    ensures Inv(Run(s, acts))
    ensures Run(s, acts).control - TX_BITS == s.control - TX_BITS
    ensures Run(s, acts).mask == s.mask
    decreases |acts|
  {
    if acts == [] {
    } else {
      StepKeepsInv(s, acts[0]);
      RunKeepsInv(Step(s, acts[0]), acts[1..]);
    }
  }

  lemma OpenedInv(bytes: seq<Byte>, mask: nat, control: Register)
    requires IsMask(mask) && |bytes| == mask + 1
    ensures Inv(Opened(bytes, mask, control))
  {
  }

  lemma ReachableInv(s: State)
    requires Reachable(s)
    ensures Inv(s)
  {
    var bytes, mask, control, acts :| IsRun(bytes, mask, control, acts, s);
    RunKeepsInv(Opened(bytes, mask, control), acts);
  }

  /** The call of `write` and its first step. */
  function Begun(s: State, c: Byte): (r: State)
    requires s.Shaped()
    ensures r.Shaped()
  {
    Write(Step(s, Call(c)))
  }

  lemma BegunKeepsInv(s: State, c: Byte)
    requires Inv(s) && s.open && s.pc.Idle?
    ensures Inv(Begun(s, c)) && Begun(s, c) == Run(s, [Call(c), Foreground])
    ensures Begun(s, c) == s.(c := c, calls := s.calls + [c], i := Next(s.head, s.mask), pc := TestRoom)
  {
    StepKeepsInv(s, Call(c));
    StepKeepsInv(Step(s, Call(c)), Foreground);
    RunAppends(s, [], Call(c));
    RunAppends(s, [Call(c)], Foreground);
    assert [] + [Call(c)] == [Call(c)] && [Call(c)] + [Foreground] == [Call(c), Foreground];
  }

  /** The six steps of a writer that found room. */
  function Commit(s: State): (r: State)
    requires s.Shaped()
    ensures r.Shaped()
  {
    Write(Write(Write(Write(Write(Write(s))))))
  }

  const COMMIT: seq<Action> := [Foreground, Foreground, Foreground, Foreground, Foreground, Foreground]

  lemma CommitIs(s: State)
    requires s.Shaped() && s.pc.TestRoom? && s.i != s.tail
    ensures Commit(s) == s.(bytes := s.bytes[s.head := s.c], head := s.i, at := s.head, reg := s.control,
                            control := s.control + TX_BITS, committed := s.committed + [s.c], pc := Idle)
    ensures Run(s, COMMIT) == Commit(s)
  {
    var s3 := Write(Write(Write(s)));
    assert s3 == s.(bytes := s.bytes[s.head := s.c], at := s.head, pc := StoreHead);
    RunSplits(s, [Foreground, Foreground, Foreground], [Foreground, Foreground, Foreground]);
    assert [Foreground, Foreground, Foreground] + [Foreground, Foreground, Foreground] == COMMIT;
    RunOfThree(s);
    RunOfThree(s3);
  }

  lemma RunOfThree(s: State)
    requires s.Shaped()
    ensures Run(s, [Foreground, Foreground, Foreground]) == Write(Write(Write(s)))
  {
    RunAppends(s, [], Foreground);
    RunAppends(s, [Foreground], Foreground);
    RunAppends(s, [Foreground, Foreground], Foreground);
    assert [] + [Foreground] == [Foreground] && [Foreground] + [Foreground] == [Foreground, Foreground];
    assert [Foreground, Foreground] + [Foreground] == [Foreground, Foreground, Foreground];
  }

  lemma CommitKeepsInv(s: State)
    requires Inv(s)
    ensures Inv(Commit(s))
  {
    var t := s;
    WriteKeepsInv(t); t := Write(t);
    WriteKeepsInv(t); t := Write(t);
    WriteKeepsInv(t); t := Write(t);
    WriteKeepsInv(t); t := Write(t);
    WriteKeepsInv(t); t := Write(t);
    WriteKeepsInv(t);
  }

  // ---- main results ------------------------------------------------------------

  /** No byte is lost, duplicated, reordered or overwritten, whatever the
      interleaving; the ring never holds more than `mask` bytes; and the other
      bits of the control register survive the non-atomic `|=`. */
  lemma TransmitIsFifo(bytes: seq<Byte>, mask: nat, control: Register, acts: seq<Action>)
    requires IsMask(mask) && |bytes| == mask + 1
    ensures var s := Run(Opened(bytes, mask, control), acts);
            && s.sent + s.Pending() == s.committed
            && s.calls == s.committed + (if s.Sending() then [s.c] else [])
            && |s.Pending()| <= mask
            && s.control - TX_BITS == control - TX_BITS
  {
    RunKeepsInv(Opened(bytes, mask, control), acts);
    var s := Run(Opened(bytes, mask, control), acts);
    HoldsContents(s.bytes, s.head, s.tail, s.mask, s.committed, |s.sent|);
  }

  /** Bytes in the ring always have an interrupt coming: the enable bit can be
      off over a non-empty ring only while the writer is about to set it. */
  lemma NoLostWakeup(s: State)
    requires Reachable(s) && s.Pending() != []
    ensures s.Enabled() || s.BeforeEnable()
  {
    ReachableInv(s);
    HoldsMeans(s.bytes, s.head, s.tail, s.mask, s.committed, |s.sent|);
  }

  /** A writer spinning on a full ring is released by the next interrupt. */
  lemma SpinIsReleased(s: State)
    requires Reachable(s) && s.pc.TestRoom? && s.i == s.tail
    ensures s.Enabled() && |s.Pending()| == s.mask
    ensures Write(Transmit(s)).pc.LoadIndex?
  {
    ReachableInv(s);
    HoldsMeans(s.bytes, s.head, s.tail, s.mask, s.committed, |s.sent|);
    TransmitKeepsInv(s);
    var t := Transmit(s);
    HoldsMeans(t.bytes, t.head, t.tail, t.mask, t.committed, |t.sent|);
  }

  function Rank(pc: Pc): nat {
    match pc
    case Idle => 0 case StoreControl => 1 case LoadControl => 2 case StoreHead => 3
    case StoreByte => 4 case LoadIndex => 5 case TestRoom => 6 case LoadHead => 7
  }

  function ForegroundSteps(acts: seq<Action>): nat
    decreases |acts|
  {
    if acts == [] then 0 else (if acts[0].Foreground? then 1 else 0) + ForegroundSteps(acts[1..])
  }

  predicate NoCalls(acts: seq<Action>) {
    forall a <- acts :: !a.Call?
  }

  lemma {:induction false} RunSplits(s: State, a: seq<Action>, b: seq<Action>)
    requires s.Shaped()
    ensures Run(s, a + b) == Run(Run(s, a), b)
    decreases |a|
  {
    if a == [] {
      assert a + b == b;
    } else {
      assert (a + b)[0] == a[0] && (a + b)[1..] == a[1..] + b;
      RunSplits(Step(s, a[0]), a[1..], b);
    }
  }

  lemma RunAppends(s: State, acts: seq<Action>, a: Action)
    requires s.Shaped()
    ensures Run(s, acts + [a]) == Step(Run(s, acts), a)
  {
    RunSplits(s, acts, [a]);
    assert [a][1..] == [];
  }

  /** One interrupt while the writer spins. */
  lemma SpinStep(s: State)
    requires Inv(s) && s.pc.TestRoom? && s.i == s.tail
    ensures s.Enabled() && |s.sent| < |s.committed|
    ensures var t := Transmit(s);
            && t.pc == s.pc && t.i == s.i && t.c == s.c && t.open == s.open && t.committed == s.committed
            && |t.sent| == |s.sent| + 1
  {
    HoldsMeans(s.bytes, s.head, s.tail, s.mask, s.committed, |s.sent|);
  }

  /** The calls made so far do not change without a new call. */
  lemma {:induction false} CallsKept(s: State, acts: seq<Action>)
    requires s.Shaped() && NoCalls(acts)
    ensures Run(s, acts).calls == s.calls
    decreases |acts|
  {
    if acts != [] {
      CallsKept(Step(s, acts[0]), acts[1..]);
    }
  }

  /** The writer is done, or the ring has room for its byte. */
  predicate HasRoom(s: State) {
    s.Sending() ==> |s.committed| - |s.sent| < s.mask
  }

  lemma StepKeepsRoom(s: State, a: Action)
    requires Inv(s) && !a.Call? && HasRoom(s)
    ensures HasRoom(Step(s, a)) && Inv(Step(s, a))
    ensures a.Foreground? ==> Rank(Step(s, a).pc) == if s.pc.Idle? then 0 else Rank(s.pc) - 1
    ensures a.Interrupt? ==> Step(s, a).pc == s.pc
  {
    HoldsMeans(s.bytes, s.head, s.tail, s.mask, s.committed, |s.sent|);
    StepKeepsInv(s, a);
  }

  /** Once there is room, every foreground step brings `write` closer to its end. */
  lemma {:induction false} RoomGivesProgress(s: State, acts: seq<Action>)
    requires Inv(s) && NoCalls(acts) && HasRoom(s)
    ensures Rank(Run(s, acts).pc) <= Rank(s.pc) - ForegroundSteps(acts) || Rank(Run(s, acts).pc) == 0
    decreases |acts|
  {
    if acts != [] {
      StepKeepsRoom(s, acts[0]);
      RoomGivesProgress(Step(s, acts[0]), acts[1..]);
    }
  }

  /** One chance for the interrupt and seven foreground steps complete any call
      in progress, wherever the writer was and however the steps interleave. */
  lemma WriteCompletes(s: State, before: seq<Action>, after: seq<Action>)
    requires Reachable(s) && NoCalls(before) && NoCalls(after) && ForegroundSteps(after) >= 7
    ensures var t := Run(s, before + [Interrupt] + after);
            t.pc.Idle? && t.committed == s.calls && t.calls == s.calls
  {
    ReachableInv(s);
    var m := Run(s, before);
    RunKeepsInv(s, before);
    CallsKept(s, before);
    RunThrough(s, before, after);
    CompletesAfterInterrupt(m, after);
  }

  lemma RunThrough(s: State, before: seq<Action>, after: seq<Action>)
    requires s.Shaped()
    ensures Run(s, before + [Interrupt] + after) == Run(Transmit(Run(s, before)), after)
  {
    RunSplits(s, before + [Interrupt], after);
    RunAppends(s, before, Interrupt);
  }

  /** The interrupt leaves room, or nothing was waiting to be stored. */
  lemma InterruptMakesRoom(m: State)
    requires Inv(m)
    ensures Inv(Transmit(m)) && HasRoom(Transmit(m)) && Transmit(m).calls == m.calls
  {
    HoldsMeans(m.bytes, m.head, m.tail, m.mask, m.committed, |m.sent|);
    TransmitKeepsInv(m);
  }

  lemma CompletesAfterInterrupt(m: State, after: seq<Action>)
    requires Inv(m) && NoCalls(after) && ForegroundSteps(after) >= 7
    ensures var t := Run(Transmit(m), after);
            t.pc.Idle? && t.committed == m.calls && t.calls == m.calls
  {
    InterruptMakesRoom(m);
    var r := Transmit(m);
    RoomGivesProgress(r, after);
    RunKeepsInv(r, after);
    CallsKept(r, after);
    assert Rank(r.pc) <= 7;
  }

  function Interrupts(n: nat): seq<Action> {
    if n == 0 then [] else [Interrupt] + Interrupts(n - 1)
  }

  /** An idle port with `n` queued bytes is empty after `n` interrupts, having
      sent exactly what was handed to it; one more turns the interrupt off. */
  lemma IdlePortDrains(s: State)
    requires Reachable(s) && s.pc.Idle?
    ensures var n := |s.Pending()|;
            && Run(s, Interrupts(n)).sent == s.calls
            && !Run(s, Interrupts(n + 1)).Enabled()
  {
    ReachableInv(s);
    WaitingBytes(s);
    DrainFrom(s, |s.Pending()|);
  }

  lemma WaitingBytes(s: State)
    requires RingInv(s)
    ensures |s.Pending()| == |s.committed| - |s.sent|
  {
    HoldsMeans(s.bytes, s.head, s.tail, s.mask, s.committed, |s.sent|);
  }

  lemma {:induction false} DrainFrom(s: State, n: nat)
    requires Inv(s) && s.pc.Idle? && n == |s.committed| - |s.sent|
    ensures Run(s, Interrupts(n)).sent == s.calls
    ensures !Run(s, Interrupts(n + 1)).Enabled()
    decreases n
  {
    HoldsMeans(s.bytes, s.head, s.tail, s.mask, s.committed, |s.sent|);
    TransmitKeepsInv(s);
    var t := Transmit(s);
    assert Interrupts(n + 1)[0] == Interrupt && Interrupts(n + 1)[1..] == Interrupts(n);
    if n == 0 {
      assert Interrupts(0) == [] && Run(t, []) == t;
    } else {
      assert Interrupts(n)[0] == Interrupt && Interrupts(n)[1..] == Interrupts(n - 1);
      DrainFrom(t, n - 1);
    }
  }
}
