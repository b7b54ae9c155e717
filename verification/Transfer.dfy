/** The transfer loops of the Create library and the drive command. */
module Transfer {
  import opened Bits

  // ---- what the operating system does ---------------------------------------------------

  /** The outcome of one transfer loop against a schedule of system call results:
      bytes handed over, calls made, and the function's result. */
  datatype Outcome = Outcome(moved: nat, calls: nat, result: int)

  /** The rest of a loop that has moved `moved` of `total` bytes and seen
      `zeroes` calls that moved nothing.  A schedule that runs out moves nothing. */
  function Loop(schedule: seq<int>, total: nat, moved: nat, zeroes: nat): (o: Outcome)
    requires moved <= total && zeroes <= 3
    ensures moved <= o.moved <= total
    ensures o.result == -1 || o.result == o.moved
    decreases 4 - zeroes, total - moved
  {
    if moved == total then Outcome(moved, 0, moved)
    else
      var n := Answer(schedule, total - moved);
      var rest := if schedule == [] then [] else schedule[1..];
      if n < 0 then Outcome(moved, 1, -1)
      else if n == 0 && zeroes == 3 then Outcome(moved, 1, moved)
      else
        var o := Loop(rest, total, moved + n, if n == 0 then zeroes + 1 else zeroes);
        o.(calls := o.calls + 1)
  }

  /** The result of the next call that asks for `wanted` bytes. */
  function Answer(schedule: seq<int>, wanted: nat): (n: int)
    ensures n <= wanted
  {
    if schedule == [] then 0 else if schedule[0] > wanted then wanted else schedule[0]
  }

  /** At most three more calls than bytes are made: every call moves a byte, or is
      one of at most three that moved nothing, or is the last one. */
  lemma {:induction false} CallsBounded(schedule: seq<int>, total: nat, moved: nat, zeroes: nat)
    requires moved <= total && zeroes <= 3
    ensures Loop(schedule, total, moved, zeroes).calls <= (total - moved) + (3 - zeroes)
    decreases 4 - zeroes, total - moved
  {
    if moved < total {
      var n := Answer(schedule, total - moved);
      var rest := if schedule == [] then [] else schedule[1..];
      if n >= 0 && !(n == 0 && zeroes == 3) {
        CallsBounded(rest, total, moved + n, if n == 0 then zeroes + 1 else zeroes);
      }
    }
  }

  /** How many calls of a schedule moved nothing. */
  function Zeroes(schedule: seq<int>): nat {
    if schedule == [] then 0 else Zeroes(schedule[1..]) + if schedule[0] == 0 then 1 else 0
  }

  predicate NonNegative(schedule: seq<int>) {
    forall i :: 0 <= i < |schedule| ==> schedule[i] >= 0
  }

  function Total(schedule: seq<int>): int {
    if schedule == [] then 0 else schedule[0] + Total(schedule[1..])
  }

  /** Some prefix of the schedule has no failure and at most three zeroes and
      brings the `wanted` bytes, when `zeroes` calls moved nothing before it. */
  ghost predicate Suffices(schedule: seq<int>, wanted: nat, zeroes: nat) {
    exists k :: 0 <= k <= |schedule| && Delivered(schedule[..k], wanted, zeroes)
  }

  predicate Delivered(calls: seq<int>, wanted: nat, zeroes: nat) {
    NonNegative(calls) && Total(calls) >= wanted && zeroes + Zeroes(calls) <= 3
  }

  /** The loop completes exactly when enough bytes come before a failure and
      before the fourth call that moves nothing, consecutive or not. */
  lemma {:induction false} CompletesIff(schedule: seq<int>, total: nat, moved: nat, zeroes: nat)
    requires moved <= total && zeroes <= 3
    ensures Loop(schedule, total, moved, zeroes).moved == total <==> Suffices(schedule, total - moved, zeroes)
    decreases |schedule|
  {
    if moved == total {
      assert Delivered(schedule[..0], 0, zeroes);
    } else if schedule == [] {
      OutOfCalls(total, moved, zeroes);
    } else {
      SufficesStep(schedule, total - moved, zeroes);
      var n := Answer(schedule, total - moved);
      if n > 0 {
        CompletesIff(schedule[1..], total, moved + n, zeroes);
      } else if n == 0 && zeroes < 3 {
        CompletesIff(schedule[1..], total, moved, zeroes + 1);
      }
    }
  }

  /** Without further calls nothing more is moved. */
  lemma {:induction false} OutOfCalls(total: nat, moved: nat, zeroes: nat)
    requires moved < total && zeroes <= 3
    ensures Loop([], total, moved, zeroes).moved == Loop([], total, moved, zeroes).result == moved
    ensures !Suffices([], total - moved, zeroes)
    decreases 4 - zeroes
  {
    if zeroes < 3 { OutOfCalls(total, moved, zeroes + 1); }
  }

  /** What the first call changes. */
  lemma SufficesStep(schedule: seq<int>, wanted: nat, zeroes: nat)
    requires schedule != [] && wanted > 0
    ensures Suffices(schedule, wanted, zeroes)
        <==> schedule[0] >= 0 && Suffices(schedule[1..], Left(wanted, schedule[0]), Seen(zeroes, schedule[0]))
  {
    var n, rest := schedule[0], schedule[1..];
    if k :| 0 <= k <= |schedule| && Delivered(schedule[..k], wanted, zeroes) {
      assert k > 0;
      PrefixStep(schedule, k, wanted, zeroes);
      assert Delivered(rest[..k - 1], Left(wanted, n), Seen(zeroes, n));
    }
    if k :| 0 <= k <= |rest| && n >= 0 && Delivered(rest[..k], Left(wanted, n), Seen(zeroes, n)) {
      PrefixStep(schedule, k + 1, wanted, zeroes);
      assert Delivered(schedule[..k + 1], wanted, zeroes);
    }
  }

  function Left(wanted: nat, n: int): nat {
    if n < 0 then wanted else if n < wanted then wanted - n else 0
  }

  function Seen(zeroes: nat, n: int): nat {
    if n == 0 then zeroes + 1 else zeroes
  }

  lemma PrefixStep(schedule: seq<int>, k: nat, wanted: nat, zeroes: nat)
    requires 1 <= k <= |schedule|
    ensures var n, rest := schedule[0], schedule[1..][..k - 1];
            Delivered(schedule[..k], wanted, zeroes)
            <==> n >= 0 && Delivered(rest, Left(wanted, n), Seen(zeroes, n))
  {
    var calls, rest := schedule[..k], schedule[1..][..k - 1];
    assert calls == [schedule[0]] + rest && calls[1..] == rest;
    if NonNegative(rest) { TotalNonNegative(rest); }
    assert NonNegative(calls) ==> forall i :: 0 <= i < |rest| ==> rest[i] == calls[i + 1] >= 0;
  }

  /** What a loop that does not complete has moved is all that its calls brought, up to
      the one that failed if there was one. */
  lemma {:induction false} MovedIs(schedule: seq<int>, total: nat, moved: nat, zeroes: nat)
    requires moved <= total && zeroes <= 3
    ensures var o := Loop(schedule, total, moved, zeroes);
            && (o.moved < total && o.result >= 0 ==>
                  o.moved == moved + Total(if o.calls < |schedule| then schedule[..o.calls] else schedule))
            && (o.result < 0 ==>
                  && 1 <= o.calls <= |schedule| && schedule[o.calls - 1] < 0
                  && o.moved == moved + Total(schedule[..o.calls - 1]))
    decreases 4 - zeroes, total - moved
  {
    if moved < total && schedule != [] {
      var n, rest := Answer(schedule, total - moved), schedule[1..];
      if n >= 0 && !(n == 0 && zeroes == 3) {
        var next := if n == 0 then zeroes + 1 else zeroes;
        MovedIs(rest, total, moved + n, next);
        var calls := Loop(rest, total, moved + n, next).calls;
        TakesOneMore(schedule, calls);
        if calls > 0 { TakesOneMore(schedule, calls - 1); }
      } else {
        TakesOneMore(schedule, 0);
      }
    } else if moved < total {
      OutOfCalls(total, moved, zeroes);
    }
  }

  lemma TakesOneMore(schedule: seq<int>, k: nat)
    requires schedule != []
    ensures k + 1 <= |schedule| ==> Total(schedule[..k + 1]) == schedule[0] + Total(schedule[1..][..k])
    ensures Total(schedule) == schedule[0] + Total(schedule[1..])
    ensures Total(schedule[..0]) == 0
  {
    if k + 1 <= |schedule| {
      assert schedule[..k + 1][1..] == schedule[1..][..k];
    }
  }

  // ---- short transfers --------------------------------------------------------------------

  /** The loop reports no error and yet moved too little exactly when a fourth call
      that moves nothing, or the end of the schedule, comes before a failure and
      before enough bytes. */
  lemma {:induction false} StopsShortIff(schedule: seq<int>, total: nat, moved: nat, zeroes: nat)
    requires moved <= total && zeroes <= 3
    ensures var o := Loop(schedule, total, moved, zeroes);
            o.result >= 0 && o.moved < total <==> Starves(schedule, total - moved, zeroes)
    decreases |schedule|
  {
    if moved == total {
      NeverStarved(schedule, zeroes);
    } else if schedule == [] {
      OutOfCalls(total, moved, zeroes);
      assert Starved(schedule, 0, total - moved, zeroes);
    } else {
      StarvesStep(schedule, total - moved, zeroes);
      var n := Answer(schedule, total - moved);
      if n > 0 {
        StopsShortIff(schedule[1..], total, moved + n, zeroes);
      } else if n == 0 && zeroes < 3 {
        StopsShortIff(schedule[1..], total, moved, zeroes + 1);
      }
    }
  }

  ghost predicate Starves(schedule: seq<int>, wanted: nat, zeroes: nat) {
    exists k :: 0 <= k <= |schedule| && Starved(schedule, k, wanted, zeroes)
  }

  lemma NeverStarved(schedule: seq<int>, zeroes: nat)
    ensures !Starves(schedule, 0, zeroes)
  {
    forall k | 0 <= k <= |schedule|
      ensures !Starved(schedule, k, 0, zeroes)
    {
      if NonNegative(schedule[..k]) { TotalNonNegative(schedule[..k]); }
    }
  }

  lemma StarvesStep(schedule: seq<int>, wanted: nat, zeroes: nat)
    requires schedule != [] && wanted > 0 && zeroes <= 3
    ensures var n := schedule[0];
            Starves(schedule, wanted, zeroes)
            <==> n >= 0 && ((n == 0 && zeroes == 3) || Starves(schedule[1..], Left(wanted, n), Seen(zeroes, n)))
  {
    var n, rest := schedule[0], schedule[1..];
    if k :| 0 <= k <= |schedule| && Starved(schedule, k, wanted, zeroes) {
      assert k > 0;
      StarvedStep(schedule, k, wanted, zeroes);
    }
    if n == 0 && zeroes == 3 {
      assert schedule[..1] == [0] && [0][1..] == [];
      assert Starved(schedule, 1, wanted, zeroes);
    }
    if k :| 0 <= k <= |rest| && n >= 0 && Starved(rest, k, Left(wanted, n), Seen(zeroes, n)) {
      StarvedStep(schedule, k + 1, wanted, zeroes);
    }
  }

  lemma StarvedStep(schedule: seq<int>, k: nat, wanted: nat, zeroes: nat)
    requires 1 <= k <= |schedule|
    ensures var n := schedule[0];
            Starved(schedule, k, wanted, zeroes)
            <==> n >= 0 && Starved(schedule[1..], k - 1, Left(wanted, n), Seen(zeroes, n))
  {
    var calls, rest := schedule[..k], schedule[1..][..k - 1];
    assert calls == [schedule[0]] + rest && calls[1..] == rest;
    if NonNegative(rest) { TotalNonNegative(rest); }
    assert NonNegative(calls) ==> forall i :: 0 <= i < |rest| ==> rest[i] == calls[i + 1] >= 0;
  }

  /** The first `k` calls do not fail, bring less than `wanted`, and are all there
      are or hold the fourth zero. */
  predicate Starved(schedule: seq<int>, k: nat, wanted: nat, zeroes: nat)
    requires k <= |schedule|
  {
    && NonNegative(schedule[..k]) && Total(schedule[..k]) < wanted
    && (k == |schedule| || zeroes + Zeroes(schedule[..k]) > 3)
  }

  lemma {:induction false} TotalNonNegative(schedule: seq<int>)
    requires NonNegative(schedule)
    ensures Total(schedule) >= 0
  {
    if schedule != [] { TotalNonNegative(schedule[1..]); }
  }

  lemma {:induction false} TotalPositive(schedule: seq<int>)
    requires NonNegative(schedule)
    requires schedule != [] && schedule[|schedule| - 1] > 0
    ensures Total(schedule) > 0
  {
    if |schedule| == 1 {
      assert schedule[1..] == [];
    } else {
      assert schedule[1..][|schedule| - 2] == schedule[|schedule| - 1];
      TotalPositive(schedule[1..]);
    }
  }

  /** Overwriting a buffer behind the part `w` that was filled before. */
  lemma Spliced(w: seq<Byte>, v: seq<Byte>, before: seq<Byte>, filled: seq<Byte>)
    requires |w| + |v| <= |before| && filled == w + before[|w|..]
    ensures filled[..|w|] + v + filled[|w| + |v|..] == (w + v) + before[|w| + |v|..]
  {
  }

  /** `o` is the outcome of a loop that has come this far with `made` calls. */
  predicate Continues(o: Outcome, schedule: seq<int>, total: nat, moved: nat, zeroes: nat, made: nat)
    requires moved <= total && zeroes <= 3
  {
    var p := Loop(schedule, total, moved, zeroes);
    o == Outcome(p.moved, made + p.calls, p.result)
  }

  lemma ContinuesStep(o: Outcome, schedule: seq<int>, total: nat, moved: nat, zeroes: nat, made: nat)
    requires moved < total && zeroes <= 3 && Continues(o, schedule, total, moved, zeroes, made)
    ensures var n, rest := Answer(schedule, total - moved), if schedule == [] then [] else schedule[1..];
            if n < 0 then o == Outcome(moved, made + 1, -1)
            else if n == 0 && zeroes == 3 then o == Outcome(moved, made + 1, moved)
            else Continues(o, rest, total, moved + n, Seen(zeroes, n), made + 1)
  {
  }

  /** The serial port: bytes handed to it, the stream of bytes the robot sends
      with the position reached in it, and what the next system calls answer. */
  class Port {
    ghost var wire: seq<Byte>
    const stream: nat -> Byte
    var position: nat
    var schedule: seq<int>
    ghost var calls: nat

    constructor (schedule: seq<int>, stream: nat -> Byte)
      ensures wire == [] && calls == 0 && this.schedule == schedule && this.stream == stream && position == 0
    {
      this.schedule, this.stream, position := schedule, stream, 0;
      wire, calls := [], 0;
    }

    /** `n` bytes of the stream from `from` on. */
    function Window(from: nat, n: nat): seq<Byte> {
      seq(n, i requires 0 <= i => stream(from + i))
    }

    /** The system call `write`. */
    method SysWrite(buf: array<Byte>, offset: nat, wanted: nat) returns (n: int)
      requires offset + wanted <= buf.Length
      modifies this
      ensures n == Answer(old(schedule), wanted)
      ensures schedule == if old(schedule) == [] then [] else old(schedule)[1..]
      ensures wire == old(wire) + if n > 0 then buf[offset..offset + n] else []
      ensures calls == old(calls) + 1 && position == old(position)
    {
      n := Answer(schedule, wanted);
      if schedule != [] {
        schedule := schedule[1..];
      }
      if n > 0 {
        wire := wire + buf[offset..offset + n];
      } else {
        assert wire + [] == wire;
      }
      calls := calls + 1;
    }

    /** One more call of `write`, behind the part of the buffer already handed over. */
    method WriteMore(buf: array<Byte>, written: nat, wanted: nat, ghost before: seq<Byte>) returns (n: int)
      requires written + wanted <= buf.Length && wire == before + buf[..written]
      modifies this
      ensures n == Answer(old(schedule), wanted)
      ensures schedule == if old(schedule) == [] then [] else old(schedule)[1..]
      ensures calls == old(calls) + 1 && position == old(position)
      ensures wire == before + buf[..if n > 0 then written + n else written]
    {
      n := SysWrite(buf, written, wanted);
      if n > 0 {
        assert buf[..written + n] == buf[..written] + buf[written..written + n];
      }
    }

    /** `cwrite`: hands over a prefix of the buffer, in order. */
    method CWrite(buf: array<Byte>, numbytes: nat) returns (r: int)
      requires numbytes <= buf.Length
      modifies this
      ensures var o := Loop(old(schedule), numbytes, 0, 0);
              && r == o.result && calls == old(calls) + o.calls
              && wire == old(wire) + buf[..o.moved]
    {
      var numwritten, n, numzeroes := 0, 0, 0;
      ghost var o, before := Loop(schedule, numbytes, 0, 0), wire;
      assert wire == before + buf[..0];
      while numwritten < numbytes
        invariant 0 <= numwritten <= numbytes && 0 <= numzeroes <= 3
        invariant wire == before + buf[..numwritten]
        invariant calls >= old(calls) && Continues(o, schedule, numbytes, numwritten, numzeroes, calls - old(calls))
        decreases 4 - numzeroes, numbytes - numwritten
      {
        ContinuesStep(o, schedule, numbytes, numwritten, numzeroes, calls - old(calls));
        n := WriteMore(buf, numwritten, numbytes - numwritten, before);
        if n < 0 {
          return -1;
        }
        if n == 0 {
          numzeroes := numzeroes + 1;
          if 3 < numzeroes {
            return numwritten;
          }
        }
        numwritten := numwritten + n;
      }
      r := numwritten;
    }

    /** The system call `read`. */
    method SysRead(buf: array<Byte>, offset: nat, wanted: nat) returns (n: int)
      requires offset + wanted <= buf.Length
      modifies this, buf
      ensures n == Answer(old(schedule), wanted)
      ensures schedule == if old(schedule) == [] then [] else old(schedule)[1..]
      ensures calls == old(calls) + 1 && wire == old(wire)
      ensures n <= 0 ==> buf[..] == old(buf[..]) && position == old(position)
      ensures n > 0 ==> position == old(position) + n
                        && buf[..] == old(buf[..offset]) + Window(old(position), n) + old(buf[offset + n..])
    {
      n := Answer(schedule, wanted);
      if schedule != [] {
        schedule := schedule[1..];
      }
      calls := calls + 1;
      if n > 0 {
        forall i | 0 <= i < n {
          buf[offset + i] := stream(position + i);
        }
        position := position + n;
      }
    }

    lemma WindowGrows(from: nat, k: nat, n: nat)
      ensures Window(from, k + n) == Window(from, k) + Window(from + k, n)
    {
    }

    /** The first `n` bytes of the buffer come from the stream, the others from before. */
    ghost predicate Filled(buf: array<Byte>, start: nat, n: nat, before: seq<Byte>)
      requires n <= |before|
      reads buf
    {
      buf[..] == Window(start, n) + before[n..]
    }

    /** One more call of `read`, behind the part of the buffer already filled from
        the stream position `start` on. */
    method FillMore(buf: array<Byte>, filled: nat, wanted: nat, ghost start: nat, ghost before: seq<Byte>)
      returns (n: int)
      requires filled + wanted <= buf.Length == |before| && position == start + filled
      requires Filled(buf, start, filled, before)
      modifies this, buf
      ensures n == Answer(old(schedule), wanted)
      ensures schedule == if old(schedule) == [] then [] else old(schedule)[1..]
      ensures calls == old(calls) + 1 && wire == old(wire)
      ensures var m := if n > 0 then filled + n else filled;
              position == start + m && Filled(buf, start, m, before)
    {
      ghost var was := buf[..];
      n := SysRead(buf, filled, wanted);
      if n > 0 {
        WindowGrows(start, filled, n);
        Spliced(Window(start, filled), Window(start + filled, n), before, was);
      }
    }

    /** The loop of `cread`. */
    method ReadLoop(buf: array<Byte>, numbytes: nat) returns (r: int)
      requires numbytes <= buf.Length
      modifies this, buf
      ensures var o := Loop(old(schedule), numbytes, 0, 0);
              && r == o.result && calls == old(calls) + o.calls && wire == old(wire)
              && buf[..] == Window(old(position), o.moved) + old(buf[..])[o.moved..]
              && position == old(position) + o.moved
    {
      var numread, n, numzeroes := 0, 0, 0;
      ghost var o := Loop(schedule, numbytes, 0, 0);
      ghost var start, before := position, buf[..];
      while numread < numbytes
        invariant 0 <= numread <= numbytes && 0 <= numzeroes <= 3
        invariant position == start + numread && wire == old(wire)
        invariant Filled(buf, start, numread, before)
        invariant calls >= old(calls) && Continues(o, schedule, numbytes, numread, numzeroes, calls - old(calls))
        decreases 4 - numzeroes, numbytes - numread
      {
        ContinuesStep(o, schedule, numbytes, numread, numzeroes, calls - old(calls));
        n := FillMore(buf, numread, numbytes - numread, start, before);
        if n < 0 {
          return -1;
        }
        if n == 0 {
          numzeroes := numzeroes + 1;
          if 3 < numzeroes {
            return numread;
          }
        }
        numread := numread + n;
      }
      r := numread;
    }

    /** `cread`: fills the buffer with a prefix of what comes in; the final
        `tcflush` loses `waiting` bytes that were not read. */
    method CRead(buf: array<Byte>, numbytes: nat, waiting: nat) returns (r: int)
      requires numbytes <= buf.Length
      modifies this, buf
      ensures var o := Loop(old(schedule), numbytes, 0, 0);
              && r == o.result && calls == old(calls) + o.calls && wire == old(wire)
              && buf[..] == Window(old(position), o.moved) + old(buf[..])[o.moved..]
              && position == old(position) + o.moved + if r >= 0 then waiting else 0
    {
      r := ReadLoop(buf, numbytes);
      if r >= 0 {
        position := position + waiting;
      }
    }
  }

  // ---- the drive command -----------------------------------------------------------------

  const OPCODE_DRIVE: Byte := 137

  function Clamp(x: int, limit: int): int {
    if x > limit then limit else if x < -limit then -limit else x
  }

  /** `(x >> 8) & 0x00FF` and `x & 0x00FF`; the shift is arithmetic. */
  function HighByte(x: Short): Byte {
    (x / 256) % 256
  }

  function LowByte(x: Short): Byte {
    x % 256
  }

  /** Two's complement, big-endian, as the robot reads a word. */
  function Word(high: Byte, low: Byte): Short {
    ToShort(256 * high + low)
  }

  lemma WordOfBytes(x: Short)
    ensures Word(HighByte(x), LowByte(x)) == x
  {
    var w: int := 256 * HighByte(x) + LowByte(x);
    ModUnique(x, UINT16, x / 256 / 256, w);
    ModSmall(w, UINT16);
    ShortOfResidue(x, w);
  }

  lemma ShortOfResidue(x: Short, w: nat)
    requires w % UINT16 == x % UINT16
    ensures ToShort(w) == x
  {
  }

  lemma StraightWord(high: Byte, low: Byte)
    ensures Word(high, low) == -0x8000 <==> high == 0x80 && low == 0
  {
  }

  class Robot {
    const port: Port

    constructor (port: Port)
      ensures this.port == port
    {
      this.port := port;
    }

    /** `drive`.  The result is 0 as well when the command went out only in part. */
    method Drive(velocity: Short, radius: Short) returns (r: int)
      modifies port
      ensures var o := Loop(old(port.schedule), 5, 0, 0);
              && r == (if o.result < 0 then -1 else 0)
              && port.wire == old(port.wire) + DriveCommand(velocity, radius)[..o.moved]
      ensures r == 0 && |port.wire| < |old(port.wire)| + 5 <==> Starves(old(port.schedule), 5, 0)
    {
      var vel, rad := velocity, radius;
      var cmd := new Byte[5];
      vel := if 500 < vel then 500 else vel;
      vel := if -500 > vel then -500 else vel;
      rad := if 2000 < rad then 2000 else rad;
      rad := if -2000 > rad then -2000 else rad;
      if 0 == rad {
        rad := ToShort(32768);
      }
      cmd[0] := OPCODE_DRIVE;
      cmd[1] := HighByte(vel);
      cmd[2] := LowByte(vel);
      cmd[3] := HighByte(rad);
      cmd[4] := LowByte(rad);
      assert cmd[..] == DriveCommand(velocity, radius);
      StopsShortIff(port.schedule, 5, 0, 0);
      ghost var moved := Loop(port.schedule, 5, 0, 0).moved;
      assert cmd[..moved] == cmd[..][..moved];
      var n := port.CWrite(cmd, 5);
      r := if n < 0 then -1 else 0;
    }
  }

  /** The five bytes of "Drive, Opcode 137". */
  function DriveCommand(velocity: Short, radius: Short): (c: seq<Byte>)
    ensures |c| == 5
  {
    var v := Clamp(velocity, 500);
    var r := if Clamp(radius, 2000) == 0 then ToShort(32768) else Clamp(radius, 2000);
    [OPCODE_DRIVE, HighByte(v), LowByte(v), HighByte(r), LowByte(r)]
  }

  /** Opcode 137, the velocity kept within 500 mm/s and the radius within 2000 mm, each
      most significant byte first in two's complement; straight ahead is the word
      0x8000, which no other radius is encoded as. */
  lemma DriveDecodes(velocity: Short, radius: Short, v: int, r: int)
    requires v == if velocity > 500 then 500 else if velocity < -500 then -500 else velocity
    requires r == if radius > 2000 then 2000 else if radius < -2000 then -2000 else radius
    ensures var c := DriveCommand(velocity, radius);
            && c[0] == 137 && 256 * c[1] as int + c[2] == v % 0x1_0000
            && (radius == 0 <==> c[3] == 0x80 && c[4] == 0)
            && (radius != 0 ==> 256 * c[3] as int + c[4] == r % 0x1_0000)
            && Word(c[1], c[2]) == v && (radius != 0 ==> Word(c[3], c[4]) == r)
  {
    var sent: Short := if r == 0 then -0x8000 else r;
    assert ToShort(32768) == -0x8000;
    BytesOfWord(v);
    BytesOfWord(sent);
    WordOfBytes(v);
    WordOfBytes(sent);
    StraightWord(HighByte(sent), LowByte(sent));
  }

  lemma BytesOfWord(x: Short)
    ensures 256 * HighByte(x) as int + LowByte(x) == x % 0x1_0000
  {
    var w: int := 256 * HighByte(x) + LowByte(x);
    ModUnique(x, UINT16, x / 256 / 256, w);
  }

  /** Commands agree exactly when the clamped arguments do. */
  lemma DriveInjective(v1: Short, r1: Short, v2: Short, r2: Short)
    ensures DriveCommand(v1, r1) == DriveCommand(v2, r2)
            <==> Clamp(v1, 500) == Clamp(v2, 500) && Clamp(r1, 2000) == Clamp(r2, 2000)
  {
    var c1, c2 := DriveCommand(v1, r1), DriveCommand(v2, r2);
    DriveDecodes(v1, r1, Clamp(v1, 500), Clamp(r1, 2000));
    DriveDecodes(v2, r2, Clamp(v2, 500), Clamp(r2, 2000));
    if c1 == c2 {
      assert c1[1] == c2[1] && c1[2] == c2[2] && c1[3] == c2[3] && c1[4] == c2[4];
    }
  }
}
