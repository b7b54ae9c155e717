/** The serial port object: buffers changed in place by the public methods and
    by the two interrupt handlers.  Each method moves a ghost copy of the
    interleaving machines of SerialTx and SerialRx along with the fields. */
module FastSerial {
  import BaudRate
  import opened Bits
  import opened Options
  import opened Ring
  import SerialTx
  import SerialRx

  const RX_BUFFER_SIZE := 128
  const TX_BUFFER_SIZE := 64
  const BUFFER_MAX := 512

  /** RXEN0, TXEN0 and RXCIE0. */
  const PORT_ENABLE_BITS: SerialTx.Register := {4, 3, 7}

  function Min(x: nat, y: nat): nat {
    if x < y then x else y
  }

  class Buffer {
    var head: nat
    var tail: nat
    var mask: nat
    var bytes: array?<Byte>

    constructor ()
      ensures bytes == null && head == tail == mask == 0
    {
      head, tail, mask, bytes := 0, 0, 0, null;
    }

    /** `_allocBuffer`.  `memory` tells whether `malloc` succeeds. */
    method Alloc(size: nat, memory: bool) returns (ok: bool)
      modifies this
      ensures head == tail == 0 && IsMask(mask)
      ensures LeastPower(mask + 1, size)
      ensures ok == memory && ok == (bytes != null)
      ensures ok ==> fresh(bytes) && bytes.Length == mask + 1
    {
      head, tail := 0, 0;
      var shift := 1;
      assert Pow2(9) == 512;
      while Pow2(shift) < Min(BUFFER_MAX, size)
        invariant head == tail == 0 && 1 <= shift <= 9
        invariant shift > 1 ==> Pow2(shift - 1) < Min(BUFFER_MAX, size)
        decreases 9 - shift
      {
        Pow2Monotone(shift, 8);
        shift := shift + 1;
        if shift > 9 { Pow2Monotone(9, shift - 1); }
      }
      forall k: nat | k >= 1 && Pow2(k) >= Min(BUFFER_MAX, size)
        ensures Pow2(k) >= Pow2(shift)
      {
        if k < shift { Pow2Monotone(k, shift - 1); } else { Pow2Monotone(shift, k); }
      }
      Pow2Monotone(1, shift);
      mask := Pow2(shift) - 1;
      if memory {
        bytes := new Byte[mask + 1];
      } else {
        bytes := null;
      }
      ok := bytes != null;
    }

    /** `_freeBuffer`. */
    method Free()
      modifies this
      ensures head == tail == mask == 0 && bytes == null
    {
      head, tail, mask := 0, 0, 0;
      bytes := null;
    }
  }

  lemma {:induction false} Pow2Monotone(a: nat, b: nat)
    ensures a <= b ==> Pow2(a) <= Pow2(b)
    ensures a < b ==> Pow2(a) < Pow2(b)
    decreases b
  {
    if a < b {
      Pow2Monotone(a, b - 1);
    }
  }

  /** An empty ring of the least power of two that covers the request up to 512. */
  ghost predicate Allocated(b: Buffer, size: nat)
    reads b
  {
    && b.bytes != null && b.head == b.tail == 0 && IsMask(b.mask)
    && b.bytes.Length == b.mask + 1 && LeastPower(b.mask + 1, size)
  }

  /** `n` is the least power of two from 2 that is at least `size`, or 512. */
  ghost predicate LeastPower(n: nat, size: nat) {
    && (exists k: nat :: k >= 1 && n == Pow2(k))
    && n >= (if size < 512 then size else 512)
    && forall k: nat :: k >= 1 && Pow2(k) >= (if size < 512 then size else 512) ==> Pow2(k) >= n
  }

  class FastSerial {
    const rx: Buffer
    const tx: Buffer
    var open: bool
    var control: SerialTx.Register
    /** The divisor registers and the U2X bit. */
    var ubrr: int
    var doubleSpeed: bool
    ghost var txs: SerialTx.State
    ghost var rxs: SerialRx.State

    /** The fields of an open port are those of the two machines. */
    ghost predicate Valid()
      reads this, rx, tx, rx.bytes, tx.bytes
    {
      && rx != tx
      && (open ==>
            && rx.bytes != null && tx.bytes != null && rx.bytes != tx.bytes
            && TxCoupled() && SerialTx.Inv(txs) && txs.open && txs.pc.Idle?
            && RxCoupled() && SerialRx.Inv(rxs) && rxs.open && rxs.pc.Idle?)
    }

    ghost predicate TxCoupled()
      requires tx.bytes != null
      reads this`txs, this`control, tx, tx.bytes
    {
      && txs.bytes == tx.bytes[..] && txs.head == tx.head && txs.tail == tx.tail
      && txs.mask == tx.mask && txs.control == control
    }

    ghost predicate RxCoupled()
      requires rx.bytes != null
      reads this`rxs, rx, rx.bytes
    {
      rxs.bytes == rx.bytes[..] && rxs.head == rx.head && rxs.tail == rx.tail && rxs.mask == rx.mask
    }

    constructor (rx: Buffer, tx: Buffer)
      requires rx != tx
      ensures Valid() && !open && this.rx == rx && this.tx == tx
    {
      this.rx, this.tx, open, control := rx, tx, false, {};
      ubrr, doubleSpeed := 0, false;
      txs := SerialTx.Opened([0], 0, {});
      rxs := SerialRx.Opened([0], 0);
    }

    /** `end`. */
    method End()
      requires Valid()
      modifies this, rx, tx
      ensures Valid() && !open
      ensures control == old(control) - {3, 4, 5, 7} && rx.bytes == null && tx.bytes == null
      ensures ubrr == old(ubrr) && doubleSpeed == old(doubleSpeed)
    {
      control := control - (PORT_ENABLE_BITS + SerialTx.TX_BITS);
      rx.Free();
      tx.Free();
      open := false;
    }

    /** `begin`.  The two flags tell whether `malloc` succeeds for each buffer.  Where
        the divisor computation divides by zero, nothing is said about the divisor. */
    method Begin(fCpu: nat, baud: nat, rxSpace: nat, txSpace: nat, rxMemory: bool, txMemory: bool)
      requires Valid() && baud > 0
      modifies this, rx, tx
      ensures Valid() && open == (rxMemory && txMemory)
      ensures open ==>
                && rxs == SerialRx.Opened(rx.bytes[..], rx.mask)
                && txs == SerialTx.Opened(tx.bytes[..], tx.mask, control)
                && LeastPower(rx.mask + 1, if rxSpace == 0 then 128 else rxSpace)
                && LeastPower(tx.mask + 1, if txSpace == 0 then 64 else txSpace)
      ensures open ==> control == (if old(open) then old(control) - {3, 4, 5, 7} else old(control)) + {3, 4, 7}
      ensures var w := BaudRate.Written(fCpu, baud);
              open && w.Setting? ==> ubrr == w.ubrr && doubleSpeed == w.doubleSpeed
      ensures !open ==> ubrr == old(ubrr) && doubleSpeed == old(doubleSpeed) && control == old(control) - {3, 4, 5, 7}
    {
      if open {
        End();
      }
      var ok := AllocAndStart(if rxSpace != 0 then rxSpace else RX_BUFFER_SIZE,
                              if txSpace != 0 then txSpace else TX_BUFFER_SIZE, rxMemory, txMemory);
      if !ok {
        End();
        return;
      }
      SetDivisor(fCpu, baud);
    }

    method AllocAndStart(rxSize: nat, txSize: nat, rxMemory: bool, txMemory: bool) returns (ok: bool)
      requires rx != tx && !open
      modifies this`open, this`control, this`rxs, this`txs, rx, tx
      ensures ok == (rxMemory && txMemory) == open
      ensures ok ==>
                && Valid() && control == old(control) + {3, 4, 7}
                && rxs == SerialRx.Opened(rx.bytes[..], rx.mask)
                && txs == SerialTx.Opened(tx.bytes[..], tx.mask, control)
                && LeastPower(rx.mask + 1, rxSize) && LeastPower(tx.mask + 1, txSize)
      ensures !ok ==> control == old(control)
    {
      ok := AllocBoth(rxSize, txSize, rxMemory, txMemory);
      if ok {
        Start();
      }
    }

    method SetDivisor(fCpu: nat, baud: nat)
      requires baud > 0
      modifies this`ubrr, this`doubleSpeed
      ensures var w := BaudRate.Written(fCpu, baud); w.Setting? ==> ubrr == w.ubrr && doubleSpeed == w.doubleSpeed
    {
      var setting := BaudRate.ChooseDivisor(fCpu, baud);
      if setting.Setting? {
        ubrr, doubleSpeed := setting.ubrr, setting.doubleSpeed;
      }
    }

    /** Both buffers, the second one only if the first was allocated. */
    method AllocBoth(rxSize: nat, txSize: nat, rxMemory: bool, txMemory: bool) returns (ok: bool)
      requires rx != tx
      modifies rx, tx
      ensures ok == (rxMemory && txMemory)
      ensures ok ==> Allocated(rx, rxSize) && Allocated(tx, txSize) && rx.bytes != tx.bytes
    {
      ok := rx.Alloc(rxSize, rxMemory);
      if ok {
        ok := tx.Alloc(txSize, txMemory);
      }
    }

    /** Opens the port on empty buffers. */
    method Start()
      requires rx != tx && rx.bytes != null && tx.bytes != null && rx.bytes != tx.bytes
      requires rx.head == rx.tail == 0 && IsMask(rx.mask) && rx.bytes.Length == rx.mask + 1
      requires tx.head == tx.tail == 0 && IsMask(tx.mask) && tx.bytes.Length == tx.mask + 1
      modifies this`open, this`control, this`rxs, this`txs
      ensures Valid() && open && control == old(control) + PORT_ENABLE_BITS
      ensures rxs == SerialRx.Opened(rx.bytes[..], rx.mask) && txs == SerialTx.Opened(tx.bytes[..], tx.mask, control)
    {
      open := true;
      control := control + PORT_ENABLE_BITS;
      rxs := SerialRx.Opened(rx.bytes[..], rx.mask);
      txs := SerialTx.Opened(tx.bytes[..], tx.mask, control);
      SerialRx.OpenedInv(rx.bytes[..], rx.mask);
      SerialTx.OpenedInv(tx.bytes[..], tx.mask, control);
    }

    /** The transmit handler, called while its enable bit is set. */
    method TransmitInterrupt()
      requires tx.bytes != null && SerialTx.Inv(txs) && TxCoupled() && 5 in control
      modifies this`control, this`txs, tx`tail
      ensures TxCoupled() && txs == SerialTx.Transmit(old(txs)) && SerialTx.Inv(txs)
    {
      SerialTx.TransmitKeepsInv(txs);
      txs := SerialTx.Transmit(txs);
      if tx.tail != tx.head {
        tx.tail := Next(tx.tail, tx.mask);
      } else if tx.head == tx.tail {
        control := control - SerialTx.TX_BITS;
      }
    }

    /** `write`.  While the ring is full the only thing that happens is the
        transmit interrupt; the writer leaves the loop after one of them.
        `run` is the schedule of the interleaving machine this call amounts to. */
    method Write(c: Byte) returns (ghost run: seq<SerialTx.Action>)
      requires Valid()
      modifies this`control, this`txs, tx`head, tx`tail, tx.bytes
      ensures Valid() && open == old(open)
      ensures !open ==> txs == old(txs) && control == old(control)
      ensures open ==> txs == SerialTx.Run(old(txs), run)
      ensures open ==> txs.committed == old(txs.committed) + [c] && 5 in control
    {
      run := [];
      if !open {
        return;
      }
      run := WriteOpen(c);
    }

    method WriteOpen(c: Byte) returns (ghost run: seq<SerialTx.Action>)
      requires tx.bytes != null && TxCoupled() && SerialTx.Inv(txs) && txs.open && txs.pc.Idle?
      modifies this`control, this`txs, tx`head, tx`tail, tx.bytes
      ensures TxCoupled() && SerialTx.Inv(txs) && txs.open && txs.pc.Idle?
      ensures txs == SerialTx.Run(old(txs), run)
      ensures txs.committed == old(txs.committed) + [c] && 5 in control
    {
      ghost var start := txs;
      var i := Next(tx.head, tx.mask);
      run := [SerialTx.Call(c), SerialTx.Foreground];
      SerialTx.BegunKeepsInv(start, c);
      txs := SerialTx.Begun(start, c);
      run := AwaitRoom(i, start, run);
      SerialTx.CommitIs(txs);
      SerialTx.RunSplits(start, run, SerialTx.COMMIT);
      run := run + SerialTx.COMMIT;
      StoreByte(c, i);
    }

    /** Byte, `head` and enable bit, once there is room. */
    method StoreByte(c: Byte, i: nat)
      requires tx.bytes != null && TxCoupled() && SerialTx.Inv(txs)
      requires txs.pc.TestRoom? && txs.i == i != tx.tail && txs.c == c
      modifies this`control, this`txs, tx`head, tx.bytes
      ensures TxCoupled() && SerialTx.Inv(txs)
      ensures txs == SerialTx.Commit(old(txs)) && tx.head == i && 5 in control
    {
      SerialTx.CommitIs(txs);
      SerialTx.CommitKeepsInv(txs);
      txs := SerialTx.Commit(txs);
      tx.bytes[tx.head] := c;
      tx.head := i;
      control := control + SerialTx.TX_BITS;
    }

    /** The spin loop of `write`. */
    method AwaitRoom(i: nat, ghost start: SerialTx.State, ghost run: seq<SerialTx.Action>)
      returns (ghost longer: seq<SerialTx.Action>)
      requires tx.bytes != null && TxCoupled() && SerialTx.Inv(txs) && start.Shaped()
      requires txs == SerialTx.Run(start, run) && txs.pc.TestRoom? && txs.i == i
      modifies this`control, this`txs, tx`tail
      ensures TxCoupled() && SerialTx.Inv(txs)
      ensures txs == SerialTx.Run(start, longer) && txs.pc.TestRoom? && txs.i == i && txs.i != tx.tail
      ensures txs.committed == old(txs.committed) && txs.c == old(txs.c) && txs.open == old(txs.open)
    {
      longer := run;
      while i == tx.tail
        invariant TxCoupled() && SerialTx.Inv(txs)
        invariant txs == SerialTx.Run(start, longer) && txs.pc.TestRoom? && txs.i == i
        invariant txs.committed == old(txs.committed) && txs.c == old(txs.c) && txs.open == old(txs.open)
        decreases |txs.committed| - |txs.sent|
      {
        SerialTx.SpinStep(txs);
        SerialTx.RunAppends(start, longer, SerialTx.Interrupt);
        TransmitInterrupt();
        longer := longer + [SerialTx.Interrupt];
      }
    }

    /** The receive handler; `c` is the byte read from UDR. */
    method ReceiveInterrupt(c: Byte)
      requires Valid() && open
      modifies this`rxs, rx`head, rx.bytes
      ensures Valid() && rxs == SerialRx.Receive(old(rxs), c)
    {
      SerialRx.ReceiveKeepsInv(rxs, c);
      rxs := SerialRx.Receive(rxs, c);
      var i := Next(rx.head, rx.mask);
      if i != rx.tail {
        rx.bytes[rx.head] := c;
        rx.head := i;
      }
    }

    /** `available`, with no interrupt during the call. */
    method Available() returns (n: int)
      requires Valid()
      ensures n == if open then |rxs.Pending()| else -1
    {
      if !open {
        return -1;
      }
      n := Count(rx.head, rx.tail, rx.mask);
    }

    /** `peek`, with no interrupt during the call; `None` is -1. */
    method Peek() returns (r: Option<Byte>)
      requires Valid()
      ensures r == if !open || rxs.Pending() == [] then None else Some(rxs.Pending()[0])
    {
      if !open || rx.head == rx.tail {
        if open { SerialRx.OldestPending(rxs); }
        return None;
      }
      SerialRx.OldestPending(rxs);
      return Some(rx.bytes[rx.tail]);
    }

    /** What a whole read does to the receive machine. */
    static lemma ReadMachine(s: SerialRx.State)
      requires SerialRx.Inv(s) && s.open && s.pc.Idle?
      ensures var t := SerialRx.ReadAlone(s);
              && SerialRx.Inv(t) && t.open && t.pc.Idle?
              && t.bytes == s.bytes && t.head == s.head && t.mask == s.mask
              && (s.head == s.tail <==> s.Pending() == [])
              && (s.head == s.tail ==> t.tail == s.tail && t.Pending() == s.Pending())
              && (s.head != s.tail ==>
                    && t.tail == Next(s.tail, s.mask) && s.Pending()[0] == s.bytes[s.tail]
                    && t.Pending() == s.Pending()[1..])
    {
      SerialRx.OldestPending(s);
      SerialRx.ReadAloneIs(s);
      SerialRx.ReadAloneKeepsInv(s);
      SerialRx.OldestPending(SerialRx.ReadAlone(s));
    }

    /** `read`, with no interrupt during the call. */
    method Read() returns (r: Option<Byte>)
      requires Valid()
      modifies this`rxs, rx`tail
      ensures Valid() && open == old(open)
      ensures r == if !open || old(rxs.Pending()) == [] then None
                   else Some(old(rxs.Pending())[0])
      ensures open ==> rxs == SerialRx.ReadAlone(old(rxs))
      ensures open ==> rxs.Pending() == if r.None? then old(rxs.Pending()) else old(rxs.Pending())[1..]
    {
      if !open {
        return None;
      }
      ReadMachine(rxs);
      rxs := SerialRx.ReadAlone(rxs);
      if rx.head == rx.tail {
        return None;
      }
      var c := rx.bytes[rx.tail];
      rx.tail := Next(rx.tail, rx.mask);
      return Some(c);
    }
  }
}
