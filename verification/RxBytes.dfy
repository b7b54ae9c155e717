/** The receive side again, with the two byte accesses that an 8-bit processor makes
    for each 16-bit index.  Interrupts may come between them.  `head` is read by the
    foreground and written by the handler, `tail` the other way round; an index that
    only one side writes is read by that side without interference, in one step. */
module RxBytes {
  import opened Bits
  import opened Options
  import opened Ring
  import opened SerialRx

  /** Which byte of an index the compiled code accesses first. */
  datatype Order = LowFirst | HighFirst

  /** The first half of an access: the part of `head` loaded, with the number of bytes
      accepted by then, or a part of `tail` stored. */
  datatype Half = Whole | HeadPart(part: nat, seen: nat) | TailPart

  datatype Machine = Machine(s: State, half: Half, order: Order)

  function Low(x: nat): nat {
    x % 256
  }

  function High(x: nat): nat {
    x / 256 * 256
  }

  /** Ring sizes for which two halves of indexes make an index. */
  predicate Sized(mask: nat) {
    mask <= 255 || mask == 511
  }

  lemma MaskIsSized(mask: nat)
    requires IsMask(mask)
    ensures Sized(mask)
  {
    var k: nat :| 1 <= k <= 9 && mask == Pow2(k) - 1;
    assert Pow2(1) == 2 && Pow2(2) == 4 && Pow2(3) == 8 && Pow2(4) == 16 && Pow2(5) == 32;
    assert Pow2(6) == 64 && Pow2(7) == 128 && Pow2(8) == 256 && Pow2(9) == 512;
  }

  /** `high` and `low` as one index. */
  function Torn(high: nat, low: nat): nat {
    High(high) + Low(low)
  }

  lemma TornFits(high: nat, low: nat, mask: nat)
    requires Sized(mask) && high <= mask && low <= mask
    ensures Torn(high, low) <= mask
    ensures mask <= 255 ==> Torn(high, low) == low
  {
  }

  predicate Shaped(m: Machine) {
    m.s.Shaped() && Sized(m.s.mask)
  }

  function LoadHeadHalf(m: Machine, op: Op): Machine {
    var s := m.s;
    if m.half.HeadPart? then
      if m.order.LowFirst?
      then Machine(s.(h := High(s.head) + m.half.part, seen := m.half.seen, pc := LoadTail(op)), Whole, m.order)
      else Machine(s.(h := m.half.part + Low(s.head), seen := |s.accepted|, pc := LoadTail(op)), Whole, m.order)
    else m.(half := HeadPart(if m.order.LowFirst? then Low(s.head) else High(s.head), |s.accepted|))
  }

  function StoreTailHalf(m: Machine): (r: Machine)
    requires Shaped(m) && m.s.pc.StoreTail?
    ensures Shaped(r)
  {
    var s, next := m.s, Next(m.s.at, m.s.mask);
    TornFits(s.tail, next, s.mask);
    TornFits(next, s.tail, s.mask);
    if m.half.TailPart? then Machine(Advance(s), Whole, m.order)
    else
      Machine(s.(tail := if m.order.LowFirst? then Torn(s.tail, next) else Torn(next, s.tail)), TailPart, m.order)
  }

  /** The next access of the foreground code. */
  function Access(m: Machine): (r: Machine)
    requires Shaped(m)
    ensures Shaped(r)
  {
    match m.s.pc
    case LoadHead(op) => LoadHeadHalf(m, op)
    case StoreTail => StoreTailHalf(m)
    case _ => m.(s := Advance(m.s))
  }

  function Do(m: Machine, a: Action): (r: Machine)
    requires Shaped(m)
    ensures Shaped(r)
  {
    match a
    case Call(op) => m.(s := Start(m.s, op))
    case Foreground => Access(m)
    case Interrupt(c) => m.(s := Receive(m.s, c))
  }

  function DoAll(m: Machine, acts: seq<Action>): (r: Machine)
    requires Shaped(m)
    ensures Shaped(r)
    decreases |acts|
  {
    if acts == [] then m else DoAll(Do(m, acts[0]), acts[1..])
  }

  function Fresh(bytes: seq<Byte>, mask: nat, order: Order): Machine {
    Machine(Opened(bytes, mask), Whole, order)
  }

  // ---- rings of at most 256 bytes ----------------------------------------------------

  /** The state in which an access has happened when its low byte was accessed. */
  function Settled(m: Machine): (s: State)
    requires Shaped(m)
    ensures s.Shaped()
  {
    if m.order.LowFirst? && m.half.HeadPart? && m.s.pc.LoadHead?
    then m.s.(h := m.half.part, seen := m.half.seen, pc := LoadTail(m.s.pc.op))
    else if m.order.LowFirst? && m.half.TailPart? && m.s.pc.StoreTail? then Advance(m.s)
    else m.s
  }

  /** The high bytes are 0, and an access in progress belongs to its place. */
  predicate Small(m: Machine) {
    && Shaped(m) && m.s.mask <= 255
    && (m.half.HeadPart? ==> m.s.pc.LoadHead? && (m.order.HighFirst? ==> m.half.part == 0))
    && (m.half.TailPart? ==> m.s.pc.StoreTail? && (m.order.LowFirst? ==> m.s.tail == Next(m.s.at, m.s.mask)))
  }

  lemma LoadHeadSettles(m: Machine)
    requires Small(m) && m.s.pc.LoadHead?
    ensures Small(Access(m))
    ensures Settled(Access(m)) == Settled(m) || Settled(Access(m)) == Advance(Settled(m))
  {
    TornFits(0, m.s.head, m.s.mask);
    assert High(m.s.head) == 0 && Low(m.s.head) == m.s.head;
  }

  lemma StoreTailSettles(m: Machine)
    requires Small(m) && m.s.pc.StoreTail?
    ensures Small(Access(m))
    ensures Settled(Access(m)) == Settled(m) || Settled(Access(m)) == Advance(Settled(m))
  {
    var next := Next(m.s.at, m.s.mask);
    TornFits(m.s.tail, next, m.s.mask);
    TornFits(next, m.s.tail, m.s.mask);
  }

  /** Each step of the byte machine is a step of the machine of whole accesses, or none. */
  lemma StepSettles(m: Machine, a: Action)
    requires Small(m)
    ensures Small(Do(m, a))
    ensures Settled(Do(m, a)) == Settled(m) || Settled(Do(m, a)) == Step(Settled(m), a)
  {
    match a
    case Call(op) =>
    case Foreground =>
      if m.s.pc.LoadHead? {
        LoadHeadSettles(m);
      } else if m.s.pc.StoreTail? {
        StoreTailSettles(m);
      }
    case Interrupt(c) =>
  }

  /** The actions of the machine of whole accesses that a run amounts to. */
  function Matching(m: Machine, acts: seq<Action>): seq<Action>
    requires Shaped(m)
    decreases |acts|
  {
    if acts == [] then []
    else (if Settled(Do(m, acts[0])) == Settled(m) then [] else [acts[0]]) + Matching(Do(m, acts[0]), acts[1..])
  }

  lemma {:induction false} RunSettles(m: Machine, acts: seq<Action>)
    requires Small(m)
    ensures Small(DoAll(m, acts)) && Settled(DoAll(m, acts)) == Run(Settled(m), Matching(m, acts))
    decreases |acts|
  {
    if acts != [] {
      var n, rest := Do(m, acts[0]), Matching(Do(m, acts[0]), acts[1..]);
      StepSettles(m, acts[0]);
      RunSettles(n, acts[1..]);
      if Settled(n) == Settled(m) {
        assert [] + rest == rest;
      } else {
        assert ([acts[0]] + rest)[0] == acts[0] && ([acts[0]] + rest)[1..] == rest;
      }
    }
  }

  /** For rings of at most 256 bytes, in either byte order: every run is one of whole
      accesses, so bytes come back in order and only a full ring drops one. */
  lemma BytesMakeNoDifference(bytes: seq<Byte>, mask: nat, order: Order, acts: seq<Action>)
    requires IsMask(mask) && mask <= 255 && |bytes| == mask + 1
    ensures Sized(mask)
    ensures var m := DoAll(Fresh(bytes, mask, order), acts);
            var s := Settled(m);
            && s == Run(Opened(bytes, mask), Matching(Fresh(bytes, mask, order), acts))
            && s.accepted == m.s.accepted && s.arrivals == m.s.arrivals
            && s.returned + s.Pending() == s.accepted
            && (forall a <- s.arrivals :: a.kept <==> a.load != mask)
  {
    var m0 := Fresh(bytes, mask, order);
    RunSettles(m0, acts);
    ReceiveIsFifo(bytes, mask, Matching(m0, acts));
    DropsOnlyWhenFull(bytes, mask, Matching(m0, acts));
  }

  /** The byte accesses that a call has left at most. */
  function AccessesLeft(m: Machine): nat {
    match m.s.pc
    case Idle => 0
    case StoreTail => if m.half.TailPart? then 1 else 2
    case LoadAdvance => 3
    case LoadByte(_) => 4
    case LoadIndex(_) => 5
    case LoadTail(_) => 6
    case LoadHead(_) => if m.half.HeadPart? then 7 else 8
  }

  lemma AccessProgresses(m: Machine)
    requires Small(m)
    ensures AccessesLeft(Access(m)) <= if AccessesLeft(m) > 0 then AccessesLeft(m) - 1 else 0
  {
  }

  lemma StepProgresses(m: Machine, a: Action)
    requires Small(m) && !a.Call?
    ensures a.Interrupt? ==> AccessesLeft(Do(m, a)) == AccessesLeft(m)
    ensures a.Foreground? ==> AccessesLeft(Do(m, a)) <= if AccessesLeft(m) > 0 then AccessesLeft(m) - 1 else 0
  {
    if a.Foreground? { AccessProgresses(m); }
  }

  lemma {:induction false} RunProgresses(m: Machine, acts: seq<Action>)
    requires Small(m) && NoCalls(acts)
    ensures Small(DoAll(m, acts))
    ensures AccessesLeft(DoAll(m, acts)) <= AccessesLeft(m) - ForegroundSteps(acts) || AccessesLeft(DoAll(m, acts)) == 0
    decreases |acts|
  {
    if acts != [] {
      StepSettles(m, acts[0]);
      StepProgresses(m, acts[0]);
      RunProgresses(Do(m, acts[0]), acts[1..]);
    }
  }

  lemma {:induction false} MatchingHasNoCalls(m: Machine, acts: seq<Action>)
    requires Shaped(m) && NoCalls(acts)
    ensures NoCalls(Matching(m, acts))
    decreases |acts|
  {
    if acts != [] { MatchingHasNoCalls(Do(m, acts[0]), acts[1..]); }
  }

  /** Between calls nothing is half done. */
  lemma IdleIsSettled(m: Machine)
    requires Small(m) && m.s.pc.Idle?
    ensures m.half.Whole? && Settled(m) == m.s
  {
  }

  /** In rings of at most 256 bytes eight byte accesses complete any call, with the result
      that a call with whole accesses has. */
  lemma CallCompletesBytewise(bytes: seq<Byte>, mask: nat, order: Order, before: seq<Action>, op: Op, acts: seq<Action>)
    requires IsMask(mask) && mask <= 255 && |bytes| == mask + 1
    requires DoAll(Fresh(bytes, mask, order), before).s.pc.Idle? && NoCalls(acts) && ForegroundSteps(acts) >= 8
    ensures var m := DoAll(Fresh(bytes, mask, order), before);
            SerialRx.Finished(m.s, DoAll(m, [Call(op)] + acts).s, op)
  {
    var m0 := Fresh(bytes, mask, order);
    var m := DoAll(m0, before);
    RunSettles(m0, before);
    IdleIsSettled(m);
    OpenedInv(bytes, mask);
    RunKeepsInv(Opened(bytes, mask), Matching(m0, before));
    assert ([Call(op)] + acts)[1..] == acts;
    CompletesFrom(m, op, acts);
  }

  lemma CompletesFrom(m: Machine, op: Op, acts: seq<Action>)
    requires Small(m) && m.s.pc.Idle? && m.half.Whole? && Inv(m.s) && m.s.open
    requires NoCalls(acts) && ForegroundSteps(acts) >= 8
    ensures SerialRx.Finished(m.s, DoAll(Do(m, Call(op)), acts).s, op)
  {
    var n := Do(m, Call(op));
    CallBegins(m, op);
    EndsIdle(n, acts);
    EndsFinished(m.s, n.s, DoAll(n, acts).s, op, Matching(n, acts));
  }

  lemma EndsIdle(n: Machine, acts: seq<Action>)
    requires Small(n) && AccessesLeft(n) <= 8 && NoCalls(acts) && ForegroundSteps(acts) >= 8
    ensures DoAll(n, acts).s.pc.Idle? && NoCalls(Matching(n, acts))
    ensures DoAll(n, acts).s == Run(Settled(n), Matching(n, acts))
  {
    RunProgresses(n, acts);
    IdleIsSettled(DoAll(n, acts));
    RunSettles(n, acts);
    MatchingHasNoCalls(n, acts);
  }

  lemma EndsFinished(s: State, n: State, t: State, op: Op, acts: seq<Action>)
    requires Inv(n) && n.open && InCall(s, n, op) && NoCalls(acts) && t == Run(n, acts) && t.pc.Idle?
    ensures SerialRx.Finished(s, t, op)
  {
    StaysInCall(s, n, op, acts);
    NotInCall(s, t, op);
  }

  lemma CallBegins(m: Machine, op: Op)
    requires Small(m) && m.s.pc.Idle? && m.half.Whole? && Inv(m.s) && m.s.open
    ensures var n := Do(m, Call(op));
            && Small(n) && AccessesLeft(n) == 8 && Settled(n) == n.s && Inv(n.s) && n.s.open
            && InCall(m.s, n.s, op)
  {
    StepKeepsInv(m.s, Call(op));
  }

  lemma NotInCall(s: State, t: State, op: Op)
    requires t.pc.Idle?
    ensures !InCall(s, t, op)
  {
  }

  // ---- what `available` promises -------------------------------------------------------

  /** No count exceeds what was accepted, and none is followed by an empty read before
      that many successful ones. */
  predicate Faithful(log: seq<Event>, accepted: int) {
    && Promises(log, accepted)
    && forall i: nat, j: nat :: i < j < |log| ==> Honoured(log, i, j)
  }

  predicate FaithfulRun(bytes: seq<Byte>, mask: nat, order: Order, acts: seq<Action>)
    requires |bytes| == mask + 1 && Sized(mask)
  {
    var m := DoAll(Fresh(bytes, mask, order), acts);
    Faithful(m.s.log, |m.s.accepted|)
  }

  lemma FaithfulPrefix(log: seq<Event>, e: Event, accepted: int)
    requires Faithful(log + [e], accepted)
    ensures Faithful(log, accepted)
  {
    var longer := log + [e];
    forall i: nat | i < |log|
      ensures Covered(log, i, accepted)
    {
      assert Covered(longer, i, accepted);
      ReadsOfPrefix(log, e, i);
    }
    forall i: nat, j: nat | i < j < |log|
      ensures Honoured(log, i, j)
    {
      assert Honoured(longer, i, j);
      ReadsOfPrefix(log, e, i);
      ReadsOfPrefix(log, e, j);
    }
  }

  lemma SmallRunIsFaithful(bytes: seq<Byte>, mask: nat, order: Order, acts: seq<Action>)
    requires IsMask(mask) && mask <= 255 && |bytes| == mask + 1
    ensures FaithfulRun(bytes, mask, order, acts)
  {
    var m0 := Fresh(bytes, mask, order);
    RunSettles(m0, acts);
    RunKeepsInv(Opened(bytes, mask), Matching(m0, acts));
    InvIsFaithful(Settled(DoAll(m0, acts)));
    NotSettledYet(DoAll(m0, acts));
  }

  lemma InvIsFaithful(s: State)
    requires Inv(s)
    ensures Faithful(s.log, |s.accepted|)
  {
  }

  /** The log may still lack the read whose `tail` is half stored. */
  lemma NotSettledYet(m: Machine)
    requires Small(m) && Faithful(Settled(m).log, |Settled(m).accepted|)
    ensures Faithful(m.s.log, |m.s.accepted|)
  {
    if m.order.LowFirst? && m.half.TailPart? {
      FaithfulPrefix(m.s.log, ReadBack(Some(m.s.c)), |m.s.accepted|);
    }
  }

  // ---- the 512-byte ring -----------------------------------------------------------------

  lemma {:induction false} DoSplits(m: Machine, a: seq<Action>, b: seq<Action>)
    requires Shaped(m)
    ensures DoAll(m, a + b) == DoAll(DoAll(m, a), b)
    decreases |a|
  {
    if a == [] {
      assert a + b == b;
    } else {
      assert (a + b)[0] == a[0] && (a + b)[1..] == a[1..] + b;
      DoSplits(Do(m, a[0]), a[1..], b);
    }
  }

  lemma DoOne(m: Machine, a: Action)
    requires Shaped(m)
    ensures DoAll(m, [a]) == Do(m, a)
  {
    assert [a][1..] == [];
    assert DoAll(Do(m, a), []) == Do(m, a);
  }

  /** `n` bytes came in and nothing else happened. */
  predicate Filled(m: Machine, n: nat) {
    && m.half.Whole? && m.s.open && m.s.mask == 511 && Shaped(m) && m.s.pc.Idle?
    && m.s.head == n && m.s.tail == 0 && |m.s.accepted| == n && m.s.log == []
  }

  lemma AndOf511(x: nat)
    requires x <= 511
    ensures And(x, 511) == x
  {
    assert Pow2(3) == 8 && Pow2(6) == 64 && Pow2(9) == 512;
    AndMask(x, 9);
    ModSmall(x, 512);
  }

  lemma NextOf511(n: nat)
    requires n < 511
    ensures Next(n, 511) == n + 1
  {
    AndOf511(n + 1);
    ModSmall(n + 1, UINT16);
  }

  lemma OneMore(m: Machine, n: nat)
    requires Filled(m, n) && n < 511
    ensures Filled(Do(m, Interrupt(0)), n + 1) && Do(m, Interrupt(0)).order == m.order
  {
    NextOf511(n);
  }

  lemma {:induction false} Fill(m: Machine, n: nat) returns (acts: seq<Action>)
    requires Filled(m, 0) && n <= 511
    ensures Filled(DoAll(m, acts), n) && DoAll(m, acts).order == m.order
  {
    if n == 0 {
      acts := [];
    } else {
      var front := Fill(m, n - 1);
      acts := front + [Interrupt(0)];
      DoSplits(m, front, [Interrupt(0)]);
      DoOne(DoAll(m, front), Interrupt(0));
      OneMore(DoAll(m, front), n - 1);
    }
  }

  /** Idle, with 255 bytes in the ring. */
  predicate AtEdge(m: Machine) {
    && Shaped(m) && m.half.Whole? && m.s.open && m.s.mask == 511 && m.s.pc.Idle?
    && m.s.head == 255 && m.s.tail == 0
  }

  /** A call of `op` up to the first half of its load of `head`. */
  lemma FirstHalf(m: Machine, op: Op)
    requires AtEdge(m)
    ensures DoAll(m, [Call(op)] + [Foreground])
         == Machine(m.s.(pc := LoadHead(op)),
                    HeadPart(if m.order.LowFirst? then 255 else 0, |m.s.accepted|), m.order)
  {
    DoSplits(m, [Call(op)], [Foreground]);
    DoOne(m, Call(op));
    DoOne(Do(m, Call(op)), Foreground);
  }

  /** The interrupt that moves `head` from 255 to 256. */
  lemma AcrossTheEdge(m: Machine)
    requires Shaped(m) && m.s.mask == 511 && m.s.head == 255 && m.s.tail == 0
    ensures var t := Do(m, Interrupt(0));
            && t.half == m.half && t.order == m.order && t.s.pc == m.s.pc && t.s.log == m.s.log
            && t.s.head == 256 && t.s.tail == 0 && t.s.mask == 511 && t.s.open == m.s.open
            && |t.s.accepted| == |m.s.accepted| + 1
  {
    NextOf511(255);
  }

  /** A call of `op` up to where `head` is loaded, its bytes on both sides of that
      interrupt. */
  lemma LoadTorn(m: Machine, op: Op) returns (acts: seq<Action>)
    requires AtEdge(m)
    ensures var t := DoAll(m, acts);
            && t.s.pc == LoadTail(op) && t.s.h == (if m.order.LowFirst? then 511 else 0)
            && t.s.tail == 0 && t.s.mask == 511 && t.half.Whole? && t.order == m.order
            && t.s.log == m.s.log && |t.s.accepted| == |m.s.accepted| + 1
  {
    var half := [Call(op)] + [Foreground];
    var b := DoAll(m, half);
    var c := Do(b, Interrupt(0));
    acts := half + ([Interrupt(0)] + [Foreground]);
    DoSplits(m, half, [Interrupt(0)] + [Foreground]);
    FirstHalf(m, op);
    DoSplits(b, [Interrupt(0)], [Foreground]);
    DoOne(b, Interrupt(0));
    AcrossTheEdge(b);
    DoOne(c, Foreground);
    assert Do(c, Foreground) == LoadHeadHalf(c, op);
  }

  lemma FreshIsFilled(bytes: seq<Byte>, order: Order)
    requires |bytes| == 512
    ensures Filled(Fresh(bytes, 511, order), 0)
  {
  }

  /** Low byte first: with 256 bytes in the ring `available` returns 511. */
  lemma CountsTooMuch(bytes: seq<Byte>) returns (acts: seq<Action>)
    requires |bytes| == 512
    ensures var m := DoAll(Fresh(bytes, 511, LowFirst), acts);
            m.s.log == [Counted(511)] && |m.s.accepted| == 256
    ensures !FaithfulRun(bytes, 511, LowFirst, acts)
  {
    var m := Fresh(bytes, 511, LowFirst);
    FreshIsFilled(bytes, LowFirst);
    var fill := Fill(m, 255);
    var torn := LoadTorn(DoAll(m, fill), Available);
    var t := DoAll(DoAll(m, fill), torn);
    acts := fill + (torn + [Foreground]);
    DoSplits(m, fill, torn + [Foreground]);
    DoSplits(DoAll(m, fill), torn, [Foreground]);
    DoOne(t, Foreground);
    CountAtEdge();
    var log := DoAll(m, acts).s.log;
    assert log == [Counted(511)];
    assert Reads(log, 0) == 0 && !Covered(log, 0, 256);
  }

  /** High byte first: `available` returns 255, and the next read comes back empty. */
  lemma ReadsTooLittle(bytes: seq<Byte>) returns (acts: seq<Action>)
    requires |bytes| == 512
    ensures var m := DoAll(Fresh(bytes, 511, HighFirst), acts);
            m.s.log == [Counted(255), ReadBack(None)] && |m.s.accepted| == 256
    ensures !FaithfulRun(bytes, 511, HighFirst, acts)
  {
    var m := Fresh(bytes, 511, HighFirst);
    FreshIsFilled(bytes, HighFirst);
    var fill := Fill(m, 255);
    var f := DoAll(m, fill);
    var count := CountFilled(f);
    var g := DoAll(f, count);
    var torn := LoadTorn(g, Read);
    var t := DoAll(g, torn);
    acts := fill + (count + (torn + [Foreground]));
    DoSplits(m, fill, count + (torn + [Foreground]));
    DoSplits(f, count, torn + [Foreground]);
    DoSplits(g, torn, [Foreground]);
    DoOne(t, Foreground);
    var log := DoAll(m, acts).s.log;
    assert log == [Counted(255), ReadBack(None)];
    assert Reads(log, 0) == 0 && Reads(log, 1) == 0 && !Honoured(log, 0, 1);
  }

  /** An undisturbed `available` on 255 bytes. */
  lemma CountFilled(m: Machine) returns (acts: seq<Action>)
    requires Filled(m, 255)
    ensures var t := DoAll(m, acts);
            && Shaped(t) && t.half.Whole? && t.s.open && t.s.mask == 511 && t.s.pc.Idle? && t.order == m.order
            && t.s.head == 255 && t.s.tail == 0 && |t.s.accepted| == 255 && t.s.log == [Counted(255)]
  {
    var half := [Call(Available)] + [Foreground];
    var b := DoAll(m, half);
    var c := Do(b, Foreground);
    acts := half + ([Foreground] + [Foreground]);
    DoSplits(m, half, [Foreground] + [Foreground]);
    FirstHalf(m, Available);
    DoSplits(b, [Foreground], [Foreground]);
    DoOne(b, Foreground);
    DoOne(c, Foreground);
    assert c == Machine(b.s.(h := 255, seen := 255, pc := LoadTail(Available)), Whole, m.order);
    CountStep(c);
  }

  lemma CountStep(c: Machine)
    requires Shaped(c) && c.s.pc == LoadTail(Available) && c.s.h == 255 && c.s.tail == 0 && c.s.mask == 511
    ensures Do(c, Foreground) == c.(s := c.s.(log := c.s.log + [Counted(255)], pc := Idle))
  {
    CountAtEdge();
  }

  lemma CountAtEdge()
    ensures Count(255, 0, 511) == 255 && Count(511, 0, 511) == 511
  {
    AndOf511(255);
    AndOf511(511);
    ModSmall(255, UINT16);
    ModSmall(511, UINT16);
  }

  /** In either byte order `available` keeps its promise on every run exactly for rings
      of at most 256 bytes. */
  lemma PromiseIff(mask: nat, order: Order)
    requires IsMask(mask)
    ensures Sized(mask)
    ensures (forall bytes: seq<Byte>, acts: seq<Action> :: |bytes| == mask + 1 ==> FaithfulRun(bytes, mask, order, acts))
        <==> mask <= 255
  {
    MaskIsSized(mask);
    if mask <= 255 {
      forall bytes: seq<Byte>, acts: seq<Action> | |bytes| == mask + 1
        ensures FaithfulRun(bytes, mask, order, acts)
      {
        SmallRunIsFaithful(bytes, mask, order, acts);
      }
    } else {
      var bytes: seq<Byte> := seq(512, _ => 0);
      var acts: seq<Action>;
      if order.LowFirst? {
        acts := CountsTooMuch(bytes);
      } else {
        acts := ReadsTooLittle(bytes);
      }
      assert !FaithfulRun(bytes, mask, order, acts);
    }
  }
}
