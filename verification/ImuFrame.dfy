/** The checksum of an IMU frame, and which corruptions it misses. */
module ImuFrame {
  import opened Bits

  const SIZE := 32
  /** The checksummed range, header bytes 4 and 5 included. */
  const FROM := 4
  const TO := 30

  type Frame = f: seq<Byte> | |f| == SIZE witness seq(SIZE, _ => 0)

  /** Sum of bytes FROM up to `n`, without wrapping. */
  function Plain(f: Frame, n: nat): nat
    requires FROM <= n <= TO
  {
    if n == FROM then 0 else Plain(f, n - 1) + f[n - 1]
  }

  /** Sum of the running sums, without wrapping. */
  function Double(f: Frame, n: nat): nat
    requires FROM <= n <= TO
  {
    if n == FROM then 0 else Double(f, n - 1) + Plain(f, n)
  }

  /** The header test of the code: it rejects only if both bytes are wrong. */
  predicate HeaderOk(f: Frame) {
    !(f[4] != 6 && f[5] != 2)
  }

  predicate Accepted(f: Frame) {
    HeaderOk(f) && Plain(f, TO) % 256 == f[30] && Double(f, TO) % 256 == f[31]
  }

  /** The sums of a frame with a single byte that is not 0, the first one. */
  lemma {:induction false} SumsOfOneByte(f: Frame, n: nat)
    requires FROM < n <= TO && forall k :: FROM < k < TO ==> f[k] == 0
    ensures Plain(f, n) == f[FROM] && Double(f, n) == f[FROM] * (n - FROM)
  {
    if n == FROM + 1 {
      assert Plain(f, FROM) == 0 && Double(f, FROM) == 0;
    } else {
      SumsOfOneByte(f, n - 1);
    }
  }

  /** One right header byte suffices: this frame has a wrong second one. */
  lemma WrongHeaderIsAccepted(f: Frame)
    requires f[4] == 6 && (forall k :: 4 < k < 30 ==> f[k] == 0) && f[30] == 6 && f[31] == 156
    ensures f[5] != 2 && Accepted(f)
  {
    SumsOfOneByte(f, TO);
  }

  /** The checks of `readIMUData`, with their two byte counters. */
  method Check(buf: array<Byte>, numread: int) returns (ok: bool)
    requires buf.Length == SIZE
    ensures ok == (numread >= SIZE && Accepted(buf[..]))
  {
    if numread < SIZE {
      return false;
    }
    if buf[4] != 6 && buf[5] != 2 {
      return false;
    }
    var a: Byte, b: Byte := 0, 0;
    ghost var f: Frame := buf[..];
    var i := FROM;
    while i < TO
      invariant FROM <= i <= TO
      invariant a == Plain(f, i) % 256 && b == Double(f, i) % 256
    {
      ModAdd(Plain(f, i), buf[i], 256);
      a := (a + buf[i]) % 256;
      SumOfResidues(Double(f, i), Plain(f, i + 1));
      b := (b + a) % 256;
      i := i + 1;
    }
    ok := !(a != buf[30] || b != buf[31]);
  }

  lemma SumOfResidues(x: int, y: int)
    ensures (x % 256 + y % 256) % 256 == (x + y) % 256
  {
    ModAdd(x, y % 256, 256);
    ModAdd(y, x, 256);
  }

  // ---- changed bytes -----------------------------------------------------------------

  /** Byte `i` replaced. */
  function Changed(f: Frame, i: nat, v: Byte): Frame
    requires i < SIZE
  {
    f[i := v]
  }

  /** A change at `i` counts once in the plain sum and 30 - i times in the double one. */
  lemma {:induction false} ChangeMovesSums(f: Frame, i: nat, v: Byte, n: nat)
    requires FROM <= i < TO && FROM <= n <= TO
    ensures Plain(Changed(f, i, v), n) == Plain(f, n) + if i < n then v - f[i] else 0
    ensures Double(Changed(f, i, v), n) == Double(f, n) + if i < n then (n - i) * (v - f[i]) else 0
  {
    if n > FROM {
      ChangeMovesSums(f, i, v, n - 1);
      if i < n - 1 {
        assert (n - i) * (v - f[i]) == (n - 1 - i) * (v - f[i]) + (v - f[i]);
      }
    }
  }

  lemma Shifted(x: int, d: int, c: int)
    requires x % 256 == c
    ensures (x + d) % 256 == c <==> d % 256 == 0
  {
    if d % 256 == 0 {
      ModShift(x, 256, d / 256);
      assert d == 256 * (d / 256);
    } else if (x + d) % 256 == c {
      var q := (x + d) / 256 - x / 256;
      assert d == 256 * q;
      ModUnique(d, 256, q, 0);
    }
  }

  /** A frame with one changed byte of the summed range is never accepted. */
  lemma OneByteIsCaught(f: Frame, i: nat, v: Byte)
    requires Accepted(f) && 4 <= i < 30 && v != f[i]
    ensures !Accepted(Changed(f, i, v))
  {
    var g := Changed(f, i, v);
    ChangeMovesSums(f, i, v, TO);
    Shifted(Plain(f, TO), v - f[i], f[30]);
    assert g[30] == f[30];
    ModUnique(if v > f[i] then v - f[i] else v - f[i] + 256, 256, 0, if v > f[i] then v - f[i] else v - f[i] + 256);
    ModShift(v - f[i], 256, 1);
  }

  /** Two changed bytes, the first by `delta`, go unseen exactly when the second
      changes by the opposite and the distance times `delta` vanishes modulo 256
      (and, if header bytes are among them, the header still passes). */
  lemma TwoBytesUnseenIff(f: Frame, i: nat, j: nat, v: Byte, w: Byte)
    requires Accepted(f) && 4 <= i < j < 30 && v != f[i] && w != f[j]
    ensures var delta: int, epsilon: int, g := v - f[i], w - f[j], Changed(Changed(f, i, v), j, w);
            Accepted(g) <==>
            (g[4] == 6 || g[5] == 2) && (delta + epsilon) % 256 == 0 && ((j - i) * delta) % 256 == 0
  {
    var delta: int, epsilon: int := v - f[i], w - f[j];
    TwoChangesMoveSums(f, i, j, v, w);
    SumsUnchangedIff(Plain(f, TO), Double(f, TO), f[30], f[31], delta + epsilon, TO - j, (j - i) * delta);
  }

  /** What two changes do to the two sums. */
  lemma TwoChangesMoveSums(f: Frame, i: nat, j: nat, v: Byte, w: Byte)
    requires FROM <= i < j < TO
    ensures var delta: int, epsilon: int, g := v - f[i], w - f[j], Changed(Changed(f, i, v), j, w);
            && g[30] == f[30] && g[31] == f[31]
            && Plain(g, TO) == Plain(f, TO) + (delta + epsilon)
            && Double(g, TO) == Double(f, TO) + ((j - i) * delta + (TO - j) * (delta + epsilon))
  {
    var delta: int, epsilon: int := v - f[i], w - f[j];
    var h := Changed(f, i, v);
    ChangeMovesSums(f, i, v, TO);
    ChangeMovesSums(h, j, w, TO);
    assert h[j] == f[j];
    MoveSplits(TO - i, TO - j, delta, epsilon);
  }

  /** Moving the sums by `s` and by `x + c * s` leaves both residues alone exactly
      when `s` and `x` vanish. */
  lemma SumsUnchangedIff(plain: int, double: int, a: Byte, b: Byte, s: int, c: int, x: int)
    requires plain % 256 == a && double % 256 == b
    ensures (plain + s) % 256 == a && (double + (x + c * s)) % 256 == b <==> s % 256 == 0 && x % 256 == 0
  {
    Shifted(plain, s, a);
    Shifted(double, x + c * s, b);
    Vanishes(x, c, s);
  }

  lemma MoveSplits(a: int, b: int, delta: int, epsilon: int)
    ensures a * delta + b * epsilon == (a - b) * delta + b * (delta + epsilon)
  {
  }

  lemma Vanishes(x: int, c: int, s: int)
    ensures s % 256 == 0 ==> (x + c * s) % 256 == x % 256
  {
    if s % 256 == 0 {
      var q := s / 256;
      assert c * s == 256 * (c * q) by {
        assert s == 256 * q;
      }
      ModShift(x, 256, c * q);
    }
  }

  /** Swapping two unequal bytes an odd distance apart is always caught. */
  lemma OddSwapIsCaught(f: Frame, i: nat, j: nat)
    requires Accepted(f) && 4 <= i < j < 30 && f[i] != f[j] && (j - i) % 2 == 1
    ensures !Accepted(Changed(Changed(f, i, f[j]), j, f[i]))
  {
    var delta := f[j] as int - f[i] as int;
    TwoBytesUnseenIff(f, i, j, f[j], f[i]);
    if ((j - i) * delta) % 256 == 0 {
      OddFactor(j - i, delta, 8);
      assert Pow2(8) == 256 by { assert Pow2(4) == 16; }
      NotAMultiple(delta);
    }
  }

  lemma NotAMultiple(delta: int)
    requires delta % 256 == 0 && -256 < delta < 256
    ensures delta == 0
  {
  }

  /** An odd factor contributes nothing to divisibility by a power of two. */
  lemma {:induction false} OddFactor(odd: int, x: int, k: nat)
    requires odd % 2 == 1 && (odd * x) % Pow2(k) == 0
    ensures x % Pow2(k) == 0
    decreases k
  {
    if k > 0 {
      var p := Pow2(k - 1);
      HalfIsMultiple(odd, x, p);
      OddFactor(odd, x / 2, k - 1);
      DoubledMultiple(x / 2, p);
    }
  }

  /** The even part: if `2 * p` divides `odd * x` then `x` is even and `p` divides
      `odd` times its half. */
  lemma HalfIsMultiple(odd: int, x: int, p: nat)
    requires odd % 2 == 1 && p > 0 && (odd * x) % (2 * p) == 0
    ensures x == 2 * (x / 2) && (odd * (x / 2)) % p == 0
  {
    var q, h := (odd * x) / (2 * p), odd / 2;
    assert odd * x == (2 * p) * q;
    Doubles(p, q, h, x);
    assert odd * x == 2 * (h * x) + x by { assert odd == 2 * h + 1; }
    assert x == 2 * (p * q - h * x);
    var y := x / 2;
    assert odd * x == 2 * (odd * y) by { assert x == 2 * y; }
    assert odd * y == p * q;
    ModUnique(odd * y, p, q, 0);
  }

  lemma Doubles(p: int, q: int, h: int, x: int)
    ensures (2 * p) * q == 2 * (p * q) && (2 * h) * x == 2 * (h * x)
  {
  }

  lemma DoubledMultiple(y: int, p: nat)
    requires p > 0 && y % p == 0
    ensures (2 * y) % (2 * p) == 0
  {
    var d := y / p;
    assert y == p * d;
    assert 2 * y == (2 * p) * d;
    ModUnique(2 * y, 2 * p, d, 0);
  }

  // ---- the angle fields ----------------------------------------------------------------

  /** `Deg180` on hundredths of a degree. */
  function Deg180(raw: int): int {
    if raw > 18000 then raw - 36000 else if raw < -18000 then raw + 36000 else raw
  }

  /** An angle sent as an unsigned word of hundredths of a degree, modulo a full
      turn, is recovered; words beyond one and a half turns are not normalised. */
  lemma AngleRecovered(angle: int, raw: nat)
    requires -18000 < angle <= 18000 && raw == angle % 36000
    ensures Deg180(raw) == angle
  {
  }

  lemma AngleNormalisedIff(raw: nat)
    requires raw < UINT16
    ensures -18000 <= Deg180(raw) <= 18000 <==> raw <= 54000
  {
  }
}
