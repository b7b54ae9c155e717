/** Unsigned integer operations of C on the widths the firmware uses. */
module Bits {

  type Byte = x: int | 0 <= x < 256

  const UINT16 := 0x1_0000
  const UINT32 := 0x1_0000_0000
  const UINT64 := 0x1_0000_0000_0000_0000

  /** 16 bits: `short`, and the `int` of the AVR. */
  type Short = x: int | -0x8000 <= x < 0x8000

  function ToShort(x: int): Short {
    var r := x % 0x1_0000;
    if r < 0x8000 then r else r - 0x1_0000
  }

  /** 32 bits: the `long` of the AVR. */
  type Long = x: int | -0x8000_0000 <= x < 0x8000_0000

  function ToLong(x: int): Long {
    var r := x % 0x1_0000_0000;
    if r < 0x8000_0000 then r else r - 0x1_0000_0000
  }

  /** The smallest 32-bit `int`, which the Create library returns on errors. */
  const INT_MIN := -0x8000_0000

  /** `abs`, and the value of a number without its sign. */
  function Magnitude(x: int): nat {
    if x < 0 then -x else x
  }

  function Pow2(k: nat): (r: nat)
    ensures r >= 1
  {
    if k == 0 then 1 else 2 * Pow2(k - 1)
  }

  /** Bitwise `&` of two unsigned integers, bit by bit. */
  function And(x: nat, y: nat): (r: nat)
    ensures r <= x && r <= y
  {
    if x == 0 || y == 0 then 0
    else 2 * And(x / 2, y / 2) + (if x % 2 == 1 && y % 2 == 1 then 1 else 0)
  }

  /** Masking with 2^k - 1 is reduction modulo 2^k. */
  lemma {:induction false} AndMask(x: nat, k: nat)
    ensures And(x, Pow2(k) - 1) == x % Pow2(k)
  {
    if k == 0 {
      ModUnique(x, 1, x, 0);
    } else if x == 0 {
      ModSmall(0, Pow2(k));
    } else {
      AndMask(x / 2, k - 1);
      AndMaskStep(x, Pow2(k - 1));
    }
  }

  lemma AndMaskStep(x: nat, p: nat)
    requires x > 0 && p > 0 && And(x / 2, p - 1) == (x / 2) % p
    ensures And(x, 2 * p - 1) == x % (2 * p)
  {
    AndOdd(x, p);
    ModDouble(x, p);
  }

  /** Masking with an odd number keeps the last bit. */
  lemma AndOdd(x: nat, p: nat)
    requires x > 0 && p > 0
    ensures And(x, 2 * p - 1) == 2 * And(x / 2, p - 1) + x % 2
  {
    assert (2 * p - 1) / 2 == p - 1 && (2 * p - 1) % 2 == 1;
  }

  /** The last bit of `x` is the last bit of its residue modulo `2 * p`. */
  lemma ModDouble(x: nat, p: nat)
    requires p > 0
    ensures x % (2 * p) == 2 * ((x / 2) % p) + x % 2
  {
    var q, r := (x / 2) / p, (x / 2) % p;
    assert x == (2 * p) * q + (2 * r + x % 2);
    ModUnique(x, 2 * p, q, 2 * r + x % 2);
  }

  lemma MultipleBound(n: int, d: int)
    requires n > 0
    ensures d >= 1 ==> n * d >= n
    ensures d <= -1 ==> n * d <= -n
  {
    if d >= 1 {
      assert n * d == n + n * (d - 1);
    } else if d <= -1 {
      assert n * d == -n + n * (d + 1);
    }
  }

  /** Products with a fixed factor that is not negative are monotone. */
  lemma ProductMono(a: int, b: int, y: int)
    requires a <= b && y >= 0
    ensures a * y <= b * y
  {
    assert b * y == a * y + (b - a) * y;
    assert (b - a) * y >= 0;
  }

  /** A multiple of `n` strictly between `-n` and `n` is zero. */
  lemma SmallMultiple(n: int, d: int)
    requires n > 0 && -n < n * d < n
    ensures d == 0
  {
    MultipleBound(n, d);
  }

  /** Quotient and remainder are determined by `x == n * q + r` with `0 <= r < n`. */
  lemma ModUnique(x: int, n: int, q: int, r: int)
    requires n > 0 && 0 <= r < n && x == n * q + r
    ensures x % n == r && x / n == q
  {
    var q', r' := x / n, x % n;
    assert x == n * q' + r';
    assert n * (q - q') == n * q - n * q';
    SmallMultiple(n, q - q');
  }

  lemma ModSmall(x: int, n: int)
    requires 0 <= x < n
    ensures x % n == x
  {
    ModUnique(x, n, 0, x);
  }

  /** Adding a multiple of the modulus changes nothing. */
  lemma ModShift(x: int, n: int, q: int)
    requires n > 0
    ensures (x + n * q) % n == x % n
  {
    var d, r := x / n, x % n;
    assert x + n * q == n * (d + q) + r;
    ModUnique(x + n * q, n, d + q, r);
  }

  lemma ModPeriod(x: int, n: int)
    requires n > 0
    ensures (x + n) % n == x % n
  {
    ModShift(x, n, 1);
  }

  /** The residue may be taken before adding. */
  lemma ModAdd(x: int, y: int, n: int)
    requires n > 0
    ensures (x % n + y) % n == (x + y) % n
  {
    var d, r := x / n, x % n;
    assert x + y == (r + y) + n * d;
    ModShift(r + y, n, d);
  }

  lemma ResidueAdd(x: int, r: int, y: int, n: int)
    requires n > 0 && r == x % n
    ensures (r + y) % n == (x + y) % n
  {
    ModAdd(x, y, n);
  }

  /** ... and before subtracting. */
  lemma ModSubtract(x: int, y: int, n: int)
    requires n > 0
    ensures (y - x % n) % n == (y - x) % n
  {
    var d, r := x / n, x % n;
    assert y - r == (y - x) + n * d;
    ModShift(y - x, n, d);
  }

  /** The difference of two residues is the difference up to the modulus. */
  lemma ResidueDifference(x: int, r: int, y: int, t: int, n: int)
    requires n > 0 && r == x % n && t == y % n
    ensures (t - r) % n == (y - x) % n
  {
    ModAdd(y, -r, n);
    ModSubtract(x, y, n);
  }

  /** Wrapping at a multiple of the modulus is invisible to the residue. */
  lemma ModOfWrap(x: int, n: int, m: int)
    requires n > 0 && m > 0
    ensures (x % (n * m)) % n == x % n
  {
    assert n * m > 0;
    var q, r := x / (n * m), x % (n * m);
    assert x == r + n * (m * q) by {
      assert n * (m * q) == (n * m) * q;
    }
    ModShift(r, n, m * q);
  }

  /** Two numbers less than one period apart with equal residues are equal. */
  lemma ModInjective(x: int, y: int, n: int)
    requires n > 0 && x % n == y % n && x <= y < x + n
    ensures x == y
  {
    var d := y / n - x / n;
    assert n * d == n * (y / n) - n * (x / n);
    SmallMultiple(n, d);
  }

  /** Division by a positive number, as a comparison of products. */
  lemma QuotientBound(x: nat, y: nat, q: nat)
    requires y > 0
    ensures x / y >= q <==> x >= q * y
  {
    var d, r := x / y, x % y;
    assert x == d * y + r;
    if d >= q {
      ProductMono(q, d, y);
    } else {
      ProductMono(d + 1, q, y);
      assert (d + 1) * y == d * y + y;
    }
  }
}
