/** The transmit side again, with the two byte accesses for each 16-bit index that one
    side writes while the other reads it: the writer's load of `tail` and its store of
    `head`. */
module TxBytes {
  import opened Bits
  import opened Ring
  import opened RxBytes
  import opened SerialTx

  /** The first half of an access: the part of `tail` loaded, or a part of `head` stored. */
  datatype Part = NoPart | TailLoaded(part: nat) | HeadStored

  datatype Writer = Writer(s: State, half: Part, order: Order)

  predicate Fits(w: Writer) {
    w.s.Shaped() && Sized(w.s.mask)
  }

  /** The test of the spin loop, whose load of `tail` has two halves. */
  function TestRoomHalf(w: Writer): Writer {
    var s := w.s;
    if w.half.TailLoaded? then
      var t := if w.order.LowFirst? then High(s.tail) + w.half.part else w.half.part + Low(s.tail);
      Writer(if s.i == t then s else s.(pc := LoadIndex), NoPart, w.order)
    else w.(half := TailLoaded(if w.order.LowFirst? then Low(s.tail) else High(s.tail)))
  }

  function StoreHeadHalf(w: Writer): (r: Writer)
    requires Fits(w) && w.s.pc.StoreHead?
    ensures Fits(r)
  {
    var s := w.s;
    TornFits(s.head, s.i, s.mask);
    TornFits(s.i, s.head, s.mask);
    if w.half.HeadStored? then Writer(Write(s), NoPart, w.order)
    else Writer(s.(head := if w.order.LowFirst? then Torn(s.head, s.i) else Torn(s.i, s.head)), HeadStored, w.order)
  }

  function Access(w: Writer): (r: Writer)
    requires Fits(w)
    ensures Fits(r)
  {
    if w.s.pc.TestRoom? then TestRoomHalf(w)
    else if w.s.pc.StoreHead? then StoreHeadHalf(w)
    else w.(s := Write(w.s))
  }

  function Do(w: Writer, a: Action): (r: Writer)
    requires Fits(w)
    ensures Fits(r)
  {
    match a
    case Call(c) => w.(s := Step(w.s, a))
    case Foreground => Access(w)
    case Interrupt => w.(s := Transmit(w.s))
  }

  function DoAll(w: Writer, acts: seq<Action>): (r: Writer)
    requires Fits(w)
    ensures Fits(r)
    decreases |acts|
  {
    if acts == [] then w else DoAll(Do(w, acts[0]), acts[1..])
  }

  function Fresh(bytes: seq<Byte>, mask: nat, control: Register, order: Order): Writer {
    Writer(Opened(bytes, mask, control), NoPart, order)
  }

  /** The state in which an access has happened when its low byte was accessed. */
  function Settled(w: Writer): (s: State)
    requires Fits(w)
    ensures s.Shaped()
  {
    if w.order.LowFirst? && w.half.TailLoaded? && w.s.pc.TestRoom?
    then (if w.s.i == w.half.part then w.s else w.s.(pc := LoadIndex))
    else if w.order.LowFirst? && w.half.HeadStored? && w.s.pc.StoreHead? then Write(w.s)
    else w.s
  }

  /** The high bytes are 0, and an access in progress belongs to its place. */
  predicate Small(w: Writer) {
    && Fits(w) && w.s.mask <= 255
    && (w.half.TailLoaded? ==> w.s.pc.TestRoom? && (w.order.HighFirst? ==> w.half.part == 0))
    && (w.half.HeadStored? ==> w.s.pc.StoreHead? && (w.order.LowFirst? ==> w.s.head == w.s.i))
  }

  lemma TestRoomSettles(w: Writer)
    requires Small(w) && w.s.pc.TestRoom?
    ensures Small(Access(w))
    ensures Settled(Access(w)) == Settled(w) || Settled(Access(w)) == Write(Settled(w))
  {
    assert High(w.s.tail) == 0 && Low(w.s.tail) == w.s.tail;
  }

  lemma StoreHeadSettles(w: Writer)
    requires Small(w) && w.s.pc.StoreHead?
    ensures Small(Access(w))
    ensures Settled(Access(w)) == Settled(w) || Settled(Access(w)) == Write(Settled(w))
  {
    TornFits(w.s.head, w.s.i, w.s.mask);
    TornFits(w.s.i, w.s.head, w.s.mask);
  }

  /** Each step of the byte machine is a step of the machine of whole accesses, or none. */
  lemma StepSettles(w: Writer, a: Action)
    requires Small(w)
    ensures Small(Do(w, a))
    ensures Settled(Do(w, a)) == Settled(w) || Settled(Do(w, a)) == Step(Settled(w), a)
  {
    match a
    case Call(c) =>
    case Foreground =>
      if w.s.pc.TestRoom? {
        TestRoomSettles(w);
      } else if w.s.pc.StoreHead? {
        StoreHeadSettles(w);
      }
    case Interrupt =>
  }

  /** The actions of the machine of whole accesses that a run amounts to. */
  function Matching(w: Writer, acts: seq<Action>): seq<Action>
    requires Fits(w)
    decreases |acts|
  {
    if acts == [] then []
    else (if Settled(Do(w, acts[0])) == Settled(w) then [] else [acts[0]]) + Matching(Do(w, acts[0]), acts[1..])
  }

  lemma {:induction false} RunSettles(w: Writer, acts: seq<Action>)
    requires Small(w)
    ensures Small(DoAll(w, acts)) && Settled(DoAll(w, acts)) == Run(Settled(w), Matching(w, acts))
    decreases |acts|
  {
    if acts != [] {
      var n, rest := Do(w, acts[0]), Matching(Do(w, acts[0]), acts[1..]);
      StepSettles(w, acts[0]);
      RunSettles(n, acts[1..]);
      if Settled(n) == Settled(w) {
        assert [] + rest == rest;
      } else {
        assert ([acts[0]] + rest)[0] == acts[0] && ([acts[0]] + rest)[1..] == rest;
      }
    }
  }

  /** For rings of at most 256 bytes, in either byte order: every run is one of whole
      accesses, so no byte is lost, and waiting bytes have an interrupt coming. */
  lemma BytesMakeNoDifference(bytes: seq<Byte>, mask: nat, control: Register, order: Order, acts: seq<Action>)
    requires IsMask(mask) && mask <= 255 && |bytes| == mask + 1
    ensures var w := DoAll(Fresh(bytes, mask, control, order), acts);
            var s := Settled(w);
            && s == Run(Opened(bytes, mask, control), Matching(Fresh(bytes, mask, control, order), acts))
            && s.sent == w.s.sent && s.control == w.s.control
            && s.sent + s.Pending() == s.committed
            && (s.Pending() != [] ==> s.Enabled() || s.BeforeEnable())
  {
    var w0 := Fresh(bytes, mask, control, order);
    RunSettles(w0, acts);
    TransmitIsFifo(bytes, mask, control, Matching(w0, acts));
    assert IsRun(bytes, mask, control, Matching(w0, acts), Settled(DoAll(w0, acts)));
    if Settled(DoAll(w0, acts)).Pending() != [] {
      NoLostWakeup(Settled(DoAll(w0, acts)));
    }
  }

  // ---- a call in progress completes ------------------------------------------------------

  predicate MustRetry(w: Writer) {
    w.half.TailLoaded? && w.order.LowFirst? && w.half.part == w.s.i
  }

  /** Accesses left when there is room; the loaded part of `tail` may still be from
      before. */
  function AccessesLeft(w: Writer): nat {
    match w.s.pc
    case Idle => 0
    case StoreControl => 1
    case LoadControl => 2
    case StoreHead => if w.half.HeadStored? then 3 else 4
    case StoreByte => 5
    case LoadIndex => 6
    case TestRoom => if w.half.TailLoaded? then (if MustRetry(w) then 9 else 7) else 8
    case LoadHead => 9
  }

  /** Invariant, and room for the byte being sent. */
  ghost predicate Roomy(w: Writer) {
    Small(w) && Inv(Settled(w)) && HasRoom(Settled(w))
  }

  lemma RoomMeans(s: State)
    requires Inv(s) && HasRoom(s) && s.pc.TestRoom?
    ensures s.i != s.tail
  {
    HoldsMeans(s.bytes, s.head, s.tail, s.mask, s.committed, |s.sent|);
  }

  lemma StepKeepsRoomy(w: Writer, a: Action)
    requires Roomy(w) && !a.Call?
    ensures Roomy(Do(w, a)) && Do(w, a).s.calls == w.s.calls
  {
    StepSettles(w, a);
    StepKeepsRoom(Settled(w), a);
    CallsUnchanged(w, a);
  }

  lemma CallsUnchanged(w: Writer, a: Action)
    requires Fits(w) && !a.Call?
    ensures Do(w, a).s.calls == w.s.calls
  {
  }

  lemma FirstHalfProgresses(w: Writer)
    requires Roomy(w) && w.s.pc.TestRoom? && !w.half.TailLoaded?
    ensures AccessesLeft(Access(w)) == 7
  {
    RoomMeans(w.s);
    assert High(w.s.tail) == 0 && Low(w.s.tail) == w.s.tail;
  }

  lemma SecondHalfProgresses(w: Writer)
    requires Roomy(w) && w.s.pc.TestRoom? && w.half.TailLoaded?
    ensures AccessesLeft(Access(w)) == if MustRetry(w) then 8 else 6
  {
    if w.order.HighFirst? { RoomMeans(w.s); }
    assert High(w.s.tail) == 0 && Low(w.s.tail) == w.s.tail;
  }

  lemma TestRoomProgresses(w: Writer)
    requires Roomy(w) && w.s.pc.TestRoom?
    ensures AccessesLeft(Access(w)) < AccessesLeft(w)
  {
    if w.half.TailLoaded? {
      SecondHalfProgresses(w);
    } else {
      FirstHalfProgresses(w);
    }
  }

  lemma AccessProgresses(w: Writer)
    requires Roomy(w)
    ensures AccessesLeft(Access(w)) < AccessesLeft(w) || AccessesLeft(Access(w)) == 0
  {
    if w.s.pc.TestRoom? {
      TestRoomProgresses(w);
    }
  }

  lemma InterruptChangesNoWriter(w: Writer)
    requires Fits(w)
    ensures AccessesLeft(Do(w, Interrupt)) == AccessesLeft(w)
  {
  }

  lemma {:induction false} RoomProgresses(w: Writer, acts: seq<Action>)
    requires Roomy(w) && NoCalls(acts)
    ensures var t := DoAll(w, acts);
            && Roomy(t) && t.s.calls == w.s.calls
            && (AccessesLeft(t) <= AccessesLeft(w) - ForegroundSteps(acts) || AccessesLeft(t) == 0)
    decreases |acts|
  {
    if acts != [] {
      StepKeepsRoomy(w, acts[0]);
      if acts[0].Foreground? {
        AccessProgresses(w);
      } else {
        InterruptChangesNoWriter(w);
      }
      RoomProgresses(Do(w, acts[0]), acts[1..]);
    }
  }

  lemma {:induction false} CallsStay(w: Writer, acts: seq<Action>)
    requires Fits(w) && NoCalls(acts)
    ensures DoAll(w, acts).s.calls == w.s.calls
    decreases |acts|
  {
    if acts != [] {
      CallsStay(Do(w, acts[0]), acts[1..]);
    }
  }

  lemma {:induction false} DoSplits(w: Writer, a: seq<Action>, b: seq<Action>)
    requires Fits(w)
    ensures DoAll(w, a + b) == DoAll(DoAll(w, a), b)
    decreases |a|
  {
    if a == [] {
      assert a + b == b;
    } else {
      assert (a + b)[0] == a[0] && (a + b)[1..] == a[1..] + b;
      DoSplits(Do(w, a[0]), a[1..], b);
    }
  }

  lemma InterruptGivesRoom(w: Writer)
    requires Small(w) && Inv(Settled(w))
    ensures Roomy(Do(w, Interrupt)) && Do(w, Interrupt).s.calls == w.s.calls
  {
    InterruptSettles(w);
    InterruptMakesRoom(Settled(w));
    CallsUnchanged(w, Interrupt);
  }

  lemma InterruptSettles(w: Writer)
    requires Small(w)
    ensures Small(Do(w, Interrupt)) && Settled(Do(w, Interrupt)) == Transmit(Settled(w))
  {
    StepSettles(w, Interrupt);
  }

  lemma CompletesFrom(w: Writer, after: seq<Action>)
    requires Small(w) && Inv(Settled(w)) && NoCalls(after) && ForegroundSteps(after) >= 9
    ensures var t := DoAll(Do(w, Interrupt), after);
            t.s.pc.Idle? && t.half.NoPart? && t.s.committed == t.s.calls == w.s.calls
  {
    InterruptGivesRoom(w);
    var n := Do(w, Interrupt);
    RoomProgresses(n, after);
    AtMostNine(n);
    Finished(DoAll(n, after));
  }

  lemma AtMostNine(w: Writer)
    ensures AccessesLeft(w) <= 9
  {
  }

  lemma Finished(w: Writer)
    requires Roomy(w) && AccessesLeft(w) == 0
    ensures w.s.pc.Idle? && w.half.NoPart? && w.s.committed == w.s.calls
  {
    assert Settled(w) == w.s;
  }

  /** With split accesses, in a ring of at most 256 bytes: one chance for the interrupt
      and nine foreground steps complete any call in progress. */
  lemma WriteCompletesBytewise(bytes: seq<Byte>, mask: nat, control: Register, order: Order,
                               acts: seq<Action>, before: seq<Action>, after: seq<Action>)
    requires IsMask(mask) && mask <= 255 && |bytes| == mask + 1
    requires NoCalls(before) && NoCalls(after) && ForegroundSteps(after) >= 9
    ensures var w := DoAll(Fresh(bytes, mask, control, order), acts);
            var t := DoAll(w, before + [Interrupt] + after);
            t.s.pc.Idle? && t.half.NoPart? && t.s.committed == t.s.calls == w.s.calls
  {
    var w0 := Fresh(bytes, mask, control, order);
    var w := DoAll(w0, acts);
    var m := DoAll(w, before);
    DoSplits(w0, acts, before);
    RunSettles(w0, acts + before);
    RunKeepsInv(Opened(bytes, mask, control), Matching(w0, acts + before));
    CallsStay(w, before);
    DoSplits(w, before + [Interrupt], after);
    DoSplits(w, before, [Interrupt]);
    assert [Interrupt][1..] == [] && DoAll(m, [Interrupt]) == DoAll(Do(m, Interrupt), []);
    CompletesFrom(m, after);
  }
}
