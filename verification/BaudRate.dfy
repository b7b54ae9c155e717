/** Choice of the USART divisor when a port is opened. */
module BaudRate {
  import opened Bits

  /** C division, which truncates toward zero. */
  function Quotient(x: nat, y: int): int
    requires y != 0
  {
    if y > 0 then x / y else -(x / -y)
  }

  datatype Rate = DivideByZero | Rate(baud: int)

  /** The register value for `clock` input ticks per second, and the rate that
      the code computes back from it; both go through the 16-bit `int`. */
  function RegisterFor(clock: nat, baud: nat): int
    requires baud > 0
  {
    ToShort(clock / baud - 1)
  }

  function ComputedRate(clock: nat, register: int): Rate {
    RateWith(clock, ToShort(register + 1))
  }

  function RateWith(clock: nat, divisor: int): Rate {
    if divisor == 0 then DivideByZero else Rate.Rate(Quotient(clock, divisor))
  }

  /** The rate that comes back for a request of `baud`. */
  function ModeRate(clock: nat, baud: nat): Rate
    requires baud > 0
  {
    ComputedRate(clock, RegisterFor(clock, baud))
  }

  /** What `begin` writes; a division by zero on the way leaves it undefined. */
  datatype Setting = Undefined | Setting(ubrr: int, doubleSpeed: bool)

  /** The setting `begin` writes for a rate of at most `fCpu / 16`. */
  function Choose(fCpu: nat, baud: nat): Setting
    requires baud > 0
  {
    var normal, double := ModeRate(fCpu / 16, baud), ModeRate(fCpu / 8, baud);
    if normal.DivideByZero? || double.DivideByZero? then Undefined
    else if Magnitude(baud - normal.baud) <= Magnitude(baud - double.baud) then Setting(RegisterFor(fCpu / 16, baud), false)
    else Setting(RegisterFor(fCpu / 8, baud), true)
  }

  /** `rate` is the smallest rate not below `baud` that any divisor gives. */
  ghost predicate IsBest(clock: nat, baud: nat, rate: int) {
    && rate >= baud
    && (exists d: nat :: d > 0 && clock / d == rate)
    && (forall d: nat :: d > 0 && clock / d >= baud ==> clock / d >= rate)
  }

  lemma Commutes(x: int, y: int)
    ensures x * y == y * x
  {
  }

  /** A larger divisor gives no higher rate. */
  lemma QuotientAntitone(x: nat, y: nat, z: nat)
    requires 0 < y <= z
    ensures x / z <= x / y
  {
    QuotientBound(x, z, x / z);
    QuotientBound(x, y, x / z);
    assert (x / z) * z == (x / z) * y + (x / z) * (z - y) && (x / z) * (z - y) >= 0;
  }

  /** The divisor `clock / baud` gives the best rate. */
  lemma FloorDivisorIsBest(clock: nat, baud: nat)
    requires 0 < baud <= clock
    ensures clock / baud >= 1
    ensures IsBest(clock, baud, clock / (clock / baud))
  {
    var n := clock / baud;
    QuotientBound(clock, baud, 1);
    QuotientBound(clock, baud, n);
    QuotientBound(clock, n, baud);
    Commutes(n, baud);
    forall d: nat | d > 0 && clock / d >= baud
      ensures clock / d >= clock / n
    {
      QuotientBound(clock, d, baud);
      Commutes(d, baud);
      QuotientBound(clock, baud, d);
      QuotientAntitone(clock, d, n);
    }
  }

  lemma DivisorReadBack(n: int)
    ensures ToShort(ToShort(n - 1) + 1) == ToShort(n)
  {
  }

  /** What the code computes back is the rate of the wrapped divisor. */
  lemma ModeRateIs(clock: nat, baud: nat)
    requires baud > 0
    ensures ModeRate(clock, baud) == RateWith(clock, ToShort(clock / baud))
  {
    DivisorReadBack(clock / baud);
  }

  lemma NegativeDivisor(clock: nat, divisor: int)
    requires divisor < 0
    ensures Quotient(clock, divisor) <= 0
  {
    QuotientBound(clock, -divisor, 0);
  }

  /** A divisor that fits is used as it is. */
  lemma FittingDivisor(clock: nat, baud: nat)
    requires 0 < baud <= clock && clock / baud <= 0x7FFF
    ensures clock / baud >= 1
    ensures ModeRate(clock, baud) == Rate.Rate(clock / (clock / baud))
  {
    QuotientBound(clock, baud, 1);
    ModeRateIs(clock, baud);
    FittingShort(clock / baud);
  }

  lemma FittingShort(n: nat)
    requires n <= 0x7FFF
    ensures ToShort(n) == n
  {
  }

  /** A wrapped positive divisor is less than half the wanted one, so the rate
      more than doubles. */
  lemma WrappedDivisor(clock: nat, n: nat, divisor: nat)
    requires 0 < divisor && 2 * divisor <= n <= clock
    ensures clock / divisor > clock / n
  {
    var best := clock / n;
    QuotientBound(clock, n, 1);
    QuotientBound(clock, n, best);
    assert best * n == best * (2 * divisor) + best * (n - 2 * divisor) && best * (n - 2 * divisor) >= 0;
    assert best * (2 * divisor) == (2 * best) * divisor;
    QuotientBound(clock, divisor, 2 * best);
  }

  lemma OverflowingDivisor(clock: nat, baud: nat)
    requires 0 < baud <= clock && clock / baud > 0x7FFF
    ensures var r := ModeRate(clock, baud);
            !(r.Rate? && IsBest(clock, baud, r.baud))
  {
    var n := clock / baud;
    FloorDivisorIsBest(clock, baud);
    ModeRateIs(clock, baud);
    QuotientAntitone(clock, 1, baud);
    OverflowingRate(clock, n);
  }

  /** A wrapped divisor gives no rate, a negative one or one that is too high. */
  lemma OverflowingRate(clock: nat, n: nat)
    requires 0x7FFF < n <= clock
    ensures var r := RateWith(clock, ToShort(n)); r.DivideByZero? || r.baud <= 0 || r.baud > clock / n
  {
    if ToShort(n) > 0 {
      WrappedDivisor(clock, n, ToShort(n));
    } else if ToShort(n) < 0 {
      NegativeDivisor(clock, ToShort(n));
    }
  }

  /** In either mode the rate the code computes is the best one exactly when the
      divisor fits a 16-bit `int`. */
  lemma ModeIsBestIffDivisorFits(clock: nat, baud: nat)
    requires 0 < baud <= clock
    ensures var r := ModeRate(clock, baud);
            (r.Rate? && IsBest(clock, baud, r.baud)) <==> clock / baud <= 0x7FFF
  {
    FloorDivisorIsBest(clock, baud);
    if clock / baud <= 0x7FFF {
      FittingDivisor(clock, baud);
    } else {
      OverflowingDivisor(clock, baud);
    }
  }

  // ---- the choice between the two modes -----------------------------------------

  /** Both rates exist, the double-speed one lies between the request and the
      normal one, and the code stays at normal speed exactly on a tie. */
  ghost predicate ChoosesRight(fCpu: nat, baud: nat)
    requires baud > 0
  {
    var normal := ModeRate(fCpu / 16, baud);
    var double := ModeRate(fCpu / 8, baud);
    && normal.Rate? && double.Rate?
    && baud <= double.baud <= normal.baud
    && Choose(fCpu, baud).Setting? && Choose(fCpu, baud).doubleSpeed == (double.baud < normal.baud)
  }

  /** The choice is right exactly when the double-speed divisor, of which the
      registers keep 16 bits and the normal divisor drops one more, fits in 15
      bits modulo 2^17 and leaves a normal divisor. */
  lemma ChoosesRightIff(fCpu: nat, baud: nat)
    requires 0 < baud <= fCpu / 16
    ensures ChoosesRight(fCpu, baud) <==> 2 <= fCpu / 8 / baud % 0x2_0000 <= 0x7FFF
  {
    var q, p, n := fCpu / 16, fCpu / 8, fCpu / 8 / baud;
    HalfQuotient(p, baud);
    assert q == p / 2;
    QuotientBound(q, baud, 1);
    ModeRateIs(q, baud);
    ModeRateIs(p, baud);
    RatesRightIff(p, baud, n);
  }

  /** The two rates computed with the divisors that `n` and `n / 2` become. */
  lemma RatesRightIff(p: nat, baud: nat, n: nat)
    requires baud > 0 && n == p / baud && n >= 2
    ensures var normal, double := RateWith(p / 2, ToShort(n / 2)), RateWith(p, ToShort(n));
            normal.Rate? && double.Rate? && baud <= double.baud <= normal.baud
            <==> 2 <= n % 0x2_0000 <= 0x7FFF
  {
    var m := n % 0x2_0000;
    WrappedPair(n);
    if 2 <= m <= 0x7FFF {
      RatesInOrder(p, baud, m);
    } else if ToShort(n) < 0 {
      NegativeDivisor(p, ToShort(n));
    } else if ToShort(n / 2) < 0 {
      NegativeDivisor(p / 2, ToShort(n / 2));
    }
  }

  /** The 16-bit values of a divisor and of its half, in terms of its last 17 bits. */
  lemma WrappedPair(n: nat)
    ensures var m := n % 0x2_0000;
            if 2 <= m <= 0x7FFF then ToShort(n) == m && ToShort(n / 2) == m / 2
            else ToShort(n) <= 0 || ToShort(n / 2) <= 0
  {
    var k, m := n / 0x2_0000, n % 0x2_0000;
    ModUnique(n, UINT16, 2 * k + m / UINT16, m % UINT16);
    ModUnique(n / 2, UINT16, k, m / 2);
  }

  lemma RatesInOrder(p: nat, baud: nat, m: nat)
    requires baud > 0 && 2 <= m <= p / baud
    ensures baud <= p / m <= p / 2 / (m / 2)
  {
    QuotientBound(p, baud, m);
    Commutes(m, baud);
    QuotientBound(p, m, baud);
    HalfRate(p / 2, p, m / 2);
    QuotientAntitone(p, 2 * (m / 2), m);
  }

  /** Halving before or after a division gives the same quotient. */
  lemma HalfQuotient(p: nat, baud: nat)
    requires baud > 0
    ensures p / 2 / baud == p / baud / 2
  {
    HalfBound(p, baud, p / 2 / baud);
    HalfBound(p, baud, p / baud / 2);
  }

  lemma HalfBound(p: nat, baud: nat, k: nat)
    requires baud > 0
    ensures p / 2 / baud >= k <==> p / baud / 2 >= k
  {
    QuotientBound(p / 2, baud, k);
    QuotientBound(p, baud, 2 * k);
    assert (2 * k) * baud == 2 * (k * baud);
  }

  /** Twice the clock never does worse when its divisor fits: every normal rate is
      also a double-speed rate, even when the clock is not a multiple of 16. */
  lemma DoubleSpeedNeverWorse(fCpu: nat, baud: nat)
    requires 0 < baud <= fCpu / 16 && fCpu / 8 / baud <= 0x7FFF
    ensures ChoosesRight(fCpu, baud)
  {
    QuotientBound(fCpu / 16, baud, 1);
    HalfQuotient(fCpu / 8, baud);
    SmallResidue(fCpu / 8 / baud);
    ChoosesRightIff(fCpu, baud);
  }

  lemma SmallResidue(n: nat)
    requires 2 <= n <= 0x7FFF
    ensures 2 <= n % 0x2_0000 <= 0x7FFF
  {
  }

  // ---- rates above fCpu / 16 -------------------------------------------------------

  /** The setting `begin` writes; its fast branch has no choice to make. */
  function Written(fCpu: nat, baud: nat): Setting
    requires baud > 0
  {
    if baud > fCpu / 16 then Setting((fCpu / (8 * baud) - 1) % UINT16, true)
    else
      var c := Choose(fCpu, baud);
      if c.Undefined? then Undefined else Setting(c.ubrr % UINT16, c.doubleSpeed)
  }

  lemma EighthBound(fCpu: nat, baud: nat, k: nat)
    requires baud > 0
    ensures fCpu / (8 * baud) >= k <==> fCpu / 8 / baud >= k
  {
    QuotientBound(fCpu, 8 * baud, k);
    QuotientBound(fCpu / 8, baud, k);
    assert k * (8 * baud) == 8 * (k * baud);
  }

  lemma EighthFirst(fCpu: nat, baud: nat)
    requires baud > 0
    ensures fCpu / (8 * baud) == fCpu / 8 / baud
  {
    EighthBound(fCpu, baud, fCpu / (8 * baud));
    EighthBound(fCpu, baud, fCpu / 8 / baud);
  }

  /** Above fCpu / 16 the written divisor gives the best double-speed rate exactly
      up to fCpu / 8; beyond it the register wraps to 65535. */
  lemma FastRateIsBestIff(fCpu: nat, baud: nat)
    requires baud > fCpu / 16 && baud > 0
    ensures var w := Written(fCpu, baud);
            && w.Setting? && w.doubleSpeed && w.ubrr >= 0
            && (IsBest(fCpu / 8, baud, fCpu / 8 / (w.ubrr + 1)) <==> baud <= fCpu / 8)
            && (baud > fCpu / 8 ==> w.ubrr == 65535)
  {
    var p := fCpu / 8;
    EighthFirst(fCpu, baud);
    QuotientBound(p, baud, 1);
    QuotientBound(p, baud, 3);
    if baud <= p {
      FloorDivisorIsBest(p, baud);
      ModSmall(p / baud - 1, UINT16);
    } else {
      assert p / baud == 0;
      QuotientBound(p, 65536, baud);
      ProductMono(1, baud, 65536);
    }
  }

  // ---- the rate that the written register gives ------------------------------------

  /** The written register is the divisor of the chosen mode less one, in 16 bits;
      nothing is written exactly when one of the divisors is a multiple of 2^16. */
  lemma WrittenRegister(fCpu: nat, baud: nat)
    requires 0 < baud <= fCpu / 16
    ensures var w := Written(fCpu, baud);
            && (w.Undefined? <==> fCpu / 16 / baud % 0x1_0000 == 0 || fCpu / 8 / baud % 0x1_0000 == 0)
            && (w.Setting? && w.doubleSpeed ==> w.ubrr == (fCpu / 8 / baud - 1) % 0x1_0000)
            && (w.Setting? && !w.doubleSpeed ==> w.ubrr == (fCpu / 16 / baud - 1) % 0x1_0000)
  {
    ModeUndefined(fCpu / 16, baud, RegisterFor(fCpu / 16, baud), fCpu / 16 / baud % 0x1_0000);
    ModeUndefined(fCpu / 8, baud, RegisterFor(fCpu / 8, baud), fCpu / 8 / baud % 0x1_0000);
    ModeRegister(fCpu / 16, baud);
    ModeRegister(fCpu / 8, baud);
  }

  lemma ModeUndefined(clock: nat, baud: nat, register: int, low: nat)
    requires baud > 0 && register == RegisterFor(clock, baud) && low == clock / baud % 0x1_0000
    ensures ModeRate(clock, baud).DivideByZero? <==> low == 0
  {
    assert ToShort(register + 1) == 0 <==> low == 0 by {
      DivisorReadBack(clock / baud);
      ShortIsZeroIff(clock / baud);
    }
    UndefinedRate(clock, ToShort(register + 1));
  }

  lemma ModeRegister(clock: nat, baud: nat)
    requires baud > 0
    ensures RegisterFor(clock, baud) % UINT16 == (clock / baud - 1) % 0x1_0000
  {
    ShortKeepsLow(clock / baud - 1);
  }

  lemma UndefinedRate(clock: nat, divisor: int)
    ensures RateWith(clock, divisor).DivideByZero? <==> divisor == 0
  {
  }

  lemma ShortIsZeroIff(n: nat)
    ensures ToShort(n) == 0 <==> n % 0x1_0000 == 0
  {
  }

  lemma ShortKeepsLow(x: int)
    ensures ToShort(x) % UINT16 == x % 0x1_0000
  {
    ModUnique(ToShort(x), UINT16, if x % UINT16 < 0x8000 then 0 else -1, x % UINT16);
  }

  /** When the double-speed divisor fits, the rate that the written register and
      mode give is not below the request and no divisor of either mode comes
      nearer to it from above; double speed is used only where normal speed has no
      divisor for this rate. */
  lemma WrittenRateIsBest(fCpu: nat, baud: nat)
    requires 0 < baud <= fCpu / 16 && fCpu / 8 / baud <= 0x7FFF
    ensures var w := Written(fCpu, baud);
            && w.Setting? && 0 <= w.ubrr < 0x1_0000
            && var rate := fCpu / (if w.doubleSpeed then 8 else 16) / (w.ubrr + 1);
            && rate >= baud
            && (forall d: nat :: d > 0 && fCpu / 16 / d >= baud ==> fCpu / 16 / d >= rate)
            && (forall d: nat :: d > 0 && fCpu / 8 / d >= baud ==> fCpu / 8 / d >= rate)
            && (w.doubleSpeed ==> forall d: nat :: d > 0 ==> fCpu / 16 / d != rate)
  {
    var q, p := fCpu / 16, fCpu / 8;
    HalfQuotient(p, baud);
    assert q == p / 2;
    QuotientBound(q, baud, 1);
    assert q / baud <= p / baud;
    FittingDivisor(q, baud);
    FittingDivisor(p, baud);
    FloorDivisorIsBest(q, baud);
    FloorDivisorIsBest(p, baud);
    DoubleSpeedNeverWorse(fCpu, baud);
    WrittenRegister(fCpu, baud);
    ModSmall(q / baud - 1, 0x1_0000);
    ModSmall(p / baud - 1, 0x1_0000);
  }

  /** The computation in `begin`; where the code divides by zero it is left out. */
  method ChooseDivisor(fCpu: nat, baud: nat) returns (setting: Setting)
    requires baud > 0
    ensures setting == Written(fCpu, baud)
  {
    if baud > fCpu / 16 {
      return Setting((fCpu / (8 * baud) - 1) % UINT16, true);
    }
    var ureg: Short := ToShort(fCpu / 16 / baud - 1);
    var u2: Short := ToShort(fCpu / 8 / baud - 1);
    if ToShort(ureg + 1) == 0 || ToShort(u2 + 1) == 0 {
      return Undefined;
    }
    var breg := Quotient(fCpu / 16, ToShort(ureg + 1));
    var dreg := Magnitude(baud - breg);
    var b2 := Quotient(fCpu / 8, ToShort(u2 + 1));
    var d2 := Magnitude(baud - b2);
    if dreg <= d2 {
      setting := Setting(ureg % UINT16, false);
    } else {
      setting := Setting(u2 % UINT16, true);
    }
  }

  // ---- concrete rates at 16 MHz --------------------------------------------------

  lemma RateAt(clock: nat, baud: nat, n: nat, divisor: int, rate: int)
    requires baud > 0 && n == clock / baud && divisor == ToShort(n) != 0 && rate == Quotient(clock, divisor)
    ensures ModeRate(clock, baud) == Rate.Rate(rate)
  {
    ModeRateIs(clock, baud);
  }

  /** The choice, given the two rates. */
  lemma ChoiceAt(fCpu: nat, baud: nat, normal: int, double: int)
    requires baud > 0
    requires ModeRate(fCpu / 16, baud) == Rate.Rate(normal) && ModeRate(fCpu / 8, baud) == Rate.Rate(double)
    ensures var c := Choose(fCpu, baud); c.Setting? && c.doubleSpeed == (Magnitude(baud - double) < Magnitude(baud - normal))
    ensures ChoosesRight(fCpu, baud) <==> baud <= double <= normal
  {
  }

  /** A rate that `begin` accepts and gets wrong: the double-speed rate for 61 baud
      comes out as -61, and normal speed is chosen without a tie. */
  lemma WrongAt61Baud(fCpu: nat, baud: nat)
    requires fCpu == 16_000_000 && baud == 61
    ensures ModeRate(fCpu / 16, baud) == Rate.Rate(61) && ModeRate(fCpu / 8, baud) == Rate.Rate(-61)
    ensures var c := Choose(fCpu, baud); c.Setting? && !c.doubleSpeed
    ensures !ChoosesRight(fCpu, baud)
  {
    RateAt(fCpu / 16, baud, 16393, 16393, 61);
    RateAt(fCpu / 8, baud, 32786, -32750, -61);
    ChoiceAt(fCpu, baud, 61, -61);
  }

  /** Divisors may wrap and still give the right choice: for 15 baud both rates
      come out as 884. */
  lemma RightAt15Baud(fCpu: nat, baud: nat)
    requires fCpu == 16_000_000 && baud == 15
    ensures ModeRate(fCpu / 16, baud) == ModeRate(fCpu / 8, baud) == Rate.Rate(884)
    ensures var c := Choose(fCpu, baud); c.Setting? && !c.doubleSpeed
    ensures ChoosesRight(fCpu, baud)
  {
    RateAt(fCpu / 16, baud, 66666, 1130, 884);
    RateAt(fCpu / 8, baud, 133333, 2261, 884);
    ChoiceAt(fCpu, baud, 884, 884);
  }

  /** One mode alone: the double-speed divisor for 30 baud does not fit, and the
      rate computed from it is 1769 although there is a divisor for exactly 30. */
  lemma WrongModeAt30Baud()
    ensures ModeRate(2_000_000, 30) == Rate.Rate(1769)
    ensures 2_000_000 / 66666 == 30 && !IsBest(2_000_000, 30, 1769)
  {
    RateAt(2_000_000, 30, 66666, 1130, 1769);
    assert 2_000_000 / 66666 == 30;
  }

  lemma HalfRate(q: nat, p: nat, n: nat)
    requires n > 0 && (p == 2 * q || p == 2 * q + 1)
    ensures p / (2 * n) == q / n
  {
    var d, r := q / n, q % n;
    assert q == n * d + r;
    assert p == (2 * n) * d + (2 * r + (p - 2 * q));
    ModUnique(p, 2 * n, d, 2 * r + (p - 2 * q));
  }
}
