/** Reading back what `_vprintf` prints for e, f, g, E, F and G: sign, digits, point,
    exponent and padding. */
module FloatReadBack {
  import opened Bits
  import opened FormatSpec
  import opened FormatInteger
  import opened FormatFloat

  // ---- a reader --------------------------------------------------------------------------

  /** `mantissa` times ten to the `scale`. */
  datatype Scaled = Scaled(mantissa: nat, scale: int)

  /** A reader of unsigned decimal text in the manner of `strtod`, independent of the
      printing code. */
  function ReadReal(s: string): Scaled {
    ReadMantissa(s, 0, 0, false)
  }

  function ReadMantissa(s: string, acc: nat, places: nat, point: bool): Scaled
    decreases |s|
  {
    if s == "" then Scaled(acc, 0 - places)
    else if DigitValue(s[0]) < 10 then
      ReadMantissa(s[1..], acc * 10 + DigitValue(s[0]), if point then places + 1 else places, point)
    else if s[0] == '.' && !point then ReadMantissa(s[1..], acc, places, true)
    else if s[0] == 'e' || s[0] == 'E' then Scaled(acc, ReadExponent(s[1..]) - places)
    else Scaled(acc, 0 - places)
  }

  function ReadExponent(s: string): int {
    if s != "" && s[0] == '-' then 0 - ReadDigits(s[1..], 10, 0)
    else if s != "" && s[0] == '+' then ReadDigits(s[1..], 10, 0)
    else ReadDigits(s, 10, 0)
  }

  lemma {:induction false} MantissaDigits(d: string, rest: string, acc: nat, places: nat, point: bool)
    requires AllDigits(d, 10)
    ensures ReadMantissa(d + rest, acc, places, point)
         == ReadMantissa(rest, ReadDigits(d, 10, acc), if point then places + |d| else places, point)
    decreases |d|
  {
    if d == "" {
      assert "" + rest == rest;
    } else {
      assert (d + rest)[0] == d[0] && (d + rest)[1..] == d[1..] + rest;
      MantissaDigits(d[1..], rest, acc * 10 + DigitValue(d[0]), if point then places + 1 else places, point);
    }
  }

  /** Digits with a point among or behind them, and what follows. */
  lemma PointedThen(p: string, point: nat, rest: string)
    requires AllDigits(p, 10) && point <= |p|
    ensures ReadReal(Pointed(p, point) + rest)
         == ReadMantissa(rest, ReadDigits(p, 10, 0), |p| - point, point < |p|)
  {
    if point == |p| {
      MantissaDigits(p, rest, 0, 0, false);
    } else {
      var a, b := p[..point], p[point..];
      assert p == a + b && Pointed(p, point) + rest == a + ("." + (b + rest));
      MantissaDigits(a, "." + (b + rest), 0, 0, false);
      assert ("." + (b + rest))[1..] == b + rest;
      MantissaDigits(b, rest, ReadDigits(a, 10, 0), 0, true);
      ReadConcat(a, b, 10, 0);
    }
  }

  lemma PointedReads(p: string, point: nat)
    requires AllDigits(p, 10) && point <= |p|
    ensures ReadReal(Pointed(p, point)) == Scaled(ReadDigits(p, 10, 0), point - |p|)
  {
    PointedThen(p, point, "");
    assert Pointed(p, point) + "" == Pointed(p, point);
  }

  lemma ExponentReads(r: FtoaResult, upper: bool, acc: nat, places: nat, point: bool)
    requires -99 <= r.exp <= 99
    ensures ReadMantissa(ExponentText(r, upper), acc, places, point) == Scaled(acc, r.exp - places)
  {
    var t := ExponentText(r, upper);
    ExponentReadBack(r, upper);
    assert t[1..][1..] == t[2..];
  }

  /** Text with an exponent reads back as the engine's number: its first prec + 1
      digits at the power of ten of the engine's exponent. */
  lemma ExponentialReads(r: FtoaResult, prec: nat, upper: bool)
    requires prec <= 7 && AllDigits(r.digits, 10) && -99 <= r.exp <= 99
    ensures ReadReal(ExponentialBody(r, prec, upper))
         == Scaled(ReadDigits(r.digits[..prec + 1], 10, 0), r.exp - prec)
  {
    var p := r.digits[..prec + 1];
    ExponentialIsPointed(r, prec, upper);
    PointedThen(p, 1, ExponentText(r, upper));
    ExponentReads(r, upper, ReadDigits(p, 10, 0), |p| - 1, 1 < |p|);
  }

  lemma ExponentialIsPointed(r: FtoaResult, prec: nat, upper: bool)
    requires prec <= 7
    ensures ExponentialBody(r, prec, upper) == Pointed(r.digits[..prec + 1], 1) + ExponentText(r, upper)
  {
    var p := r.digits[..prec + 1];
    assert p[..1] == [r.digits[0]] && p[1..] == r.digits[1..prec + 1];
  }

  lemma ExponentialBodyReads(conv: char, spec: Spec, r: FtoaResult)
    requires IsExponential(conv) && !r.inf && !r.nan && AllDigits(r.digits, 10) && -99 <= r.exp <= 99
    ensures var prec := Precision(conv, spec);
            ReadReal(Body(conv, spec, r)) == Scaled(ReadDigits(r.digits[..prec + 1], 10, 0), r.exp - prec)
  {
    ExponentialReads(r, Precision(conv, spec), IsUpper(conv));
    assert Body(conv, spec, r) == ExponentialBody(r, Precision(conv, spec), IsUpper(conv));
  }

  /** The engine's number in units of the last of `prec` places, when there is room for
      its first digit. */
  function InUnits(r: FtoaResult, prec: nat): nat
    requires r.exp + 1 + prec > 0
  {
    var k := r.exp + 1 + prec;
    var used := Clamp(k - if Carried(r) then 1 else 0, 1, 8);
    ReadDigits(r.digits[..used], 10, 0) * Power(10, k - used)
  }

  lemma FixedDigitsAre(r: FtoaResult, prec: nat)
    requires AllDigits(r.digits, 10)
    ensures AllDigits(FixedDigits(r, prec), 10)
  {
    ZerosAreDigits(prec + 1);
  }

  lemma FixedTextReads(r: FtoaResult, prec: nat)
    requires AllDigits(r.digits, 10) && r.exp + 1 + prec > 0 && |FixedDigits(r, prec)| == Top(r.exp) + 1 + prec
    ensures ReadReal(Pointed(FixedDigits(r, prec), Top(r.exp) + 1)) == Scaled(InUnits(r, prec), 0 - prec)
  {
    FixedDigitsAre(r, prec);
    PointedReads(FixedDigits(r, prec), Top(r.exp) + 1);
    FixedValue(r, prec);
  }

  lemma FixedBodyReads(conv: char, spec: Spec, r: FtoaResult)
    requires IsFixed(conv) && !r.inf && !r.nan && ModerateExponent(r.exp) && AllDigits(r.digits, 10)
    requires r.exp + 1 + Precision(conv, spec) > 0
    ensures var prec := Precision(conv, spec);
            ReadReal(Body(conv, spec, r)) == Scaled(InUnits(r, prec), 0 - prec)
  {
    FixedConversion(conv, spec, r);
    FixedTextReads(r, Precision(conv, spec));
  }

  lemma ZerosAreDigits(n: int)
    ensures AllDigits(Times('0', n), 10)
  {
  }

  lemma GeneralTextReads(r: FtoaResult, p: nat, upper: bool)
    requires p <= 7 && AllDigits(r.digits, 10) && -99 <= r.exp <= 99
    ensures ReadReal(ExponentialBody(r, p, upper)) == Scaled(ReadDigits(r.digits[..p + 1], 10, 0), r.exp - p)
    ensures |GeneralPlaces(r, p)| == Top(r.exp) + 1 + (if p > r.exp then p - r.exp else 0) ==>
              ReadReal(Pointed(GeneralPlaces(r, p), Top(r.exp) + 1))
              == if r.exp > p then Scaled(ReadDigits(r.digits[..p + 1], 10, 0) * Power(10, r.exp - p), 0)
                 else Scaled(ReadDigits(r.digits[..p + 1], 10, 0), r.exp - p)
  {
    ExponentialReads(r, p, upper);
    if |GeneralPlaces(r, p)| == Top(r.exp) + 1 + (if p > r.exp then p - r.exp else 0) {
      PositionalReads(r, p);
    }
  }

  lemma PositionalReads(r: FtoaResult, p: nat)
    requires p <= 7 && AllDigits(r.digits, 10)
    requires |GeneralPlaces(r, p)| == Top(r.exp) + 1 + if p > r.exp then p - r.exp else 0
    ensures var n := ReadDigits(r.digits[..p + 1], 10, 0);
            ReadReal(Pointed(GeneralPlaces(r, p), Top(r.exp) + 1))
            == if r.exp > p then Scaled(n * Power(10, r.exp - p), 0) else Scaled(n, r.exp - p)
  {
    GeneralPlacesRead(r, p);
    PointedReads(GeneralPlaces(r, p), Top(r.exp) + 1);
  }

  lemma GeneralPlacesRead(r: FtoaResult, p: nat)
    requires p <= 7 && AllDigits(r.digits, 10)
    ensures AllDigits(GeneralPlaces(r, p), 10)
    ensures ReadDigits(GeneralPlaces(r, p), 10, 0)
         == ReadDigits(r.digits[..p + 1], 10, 0) * if r.exp > p then Power(10, r.exp - p) else 1
  {
    var d := r.digits[..p + 1];
    var zeros := Times('0', r.exp - p);
    ReadZeros(Top(r.exp) - r.exp, d + zeros, 10);
    ReadConcat(d, zeros, 10, 0);
    if r.exp > p {
      ReadScaled(r.exp - p, ReadDigits(d, 10, 0));
    }
  }

  lemma GeneralBodyReads(conv: char, spec: Spec, r: FtoaResult)
    requires IsFloat(conv) && !IsFixed(conv) && !IsExponential(conv) && !r.inf && !r.nan
    requires AllDigits(r.digits, 10) && -99 <= r.exp <= 99
    ensures var p := Trimmed(r.digits, Precision(conv, spec));
            var n := ReadDigits(r.digits[..p + 1], 10, 0);
            ReadReal(Body(conv, spec, r))
            == if ShapeOf(conv, spec, r).fixed && r.exp > p then Scaled(n * Power(10, r.exp - p), 0)
               else Scaled(n, r.exp - p)
  {
    var p := Trimmed(r.digits, Precision(conv, spec));
    GeneralDigits(conv, spec, r);
    GeneralTextReads(r, p, IsUpper(conv));
  }

  // ---- the whole text -----------------------------------------------------------------

  datatype SignedScaled = SignedScaled(negative: bool, value: Scaled)

  /** A reader of whole fields: white space, a sign, a number; what follows it does not
      matter. */
  function ReadFloat(s: string): SignedScaled {
    var t := SkipSpaces(s);
    if t != "" && t[0] == '-' then SignedScaled(true, ReadReal(t[1..]))
    else if t != "" && t[0] == '+' then SignedScaled(false, ReadReal(t[1..]))
    else SignedScaled(false, ReadReal(t))
  }

  lemma {:induction false} DigitsThenSpaces(s: string, n: nat, acc: nat)
    ensures ReadDigits(s + Times(' ', n), 10, acc) == ReadDigits(s, 10, acc)
    decreases |s|
  {
    if s == "" {
      assert "" + Times(' ', n) == Times(' ', n);
    } else {
      assert (s + Times(' ', n))[0] == s[0] && (s + Times(' ', n))[1..] == s[1..] + Times(' ', n);
      DigitsThenSpaces(s[1..], n, acc * 10 + DigitValue(s[0]));
    }
  }

  lemma ExponentThenSpaces(s: string, n: nat)
    ensures ReadExponent(s + Times(' ', n)) == ReadExponent(s)
  {
    if s == "" {
      assert "" + Times(' ', n) == Times(' ', n);
    } else {
      assert (s + Times(' ', n))[0] == s[0] && (s + Times(' ', n))[1..] == s[1..] + Times(' ', n);
      DigitsThenSpaces(s[1..], n, 0);
    }
    DigitsThenSpaces(s, n, 0);
  }

  lemma {:induction false} MantissaThenSpaces(s: string, n: nat, acc: nat, places: nat, point: bool)
    ensures ReadMantissa(s + Times(' ', n), acc, places, point) == ReadMantissa(s, acc, places, point)
    decreases |s|
  {
    var t := s + Times(' ', n);
    if s == "" {
      assert t == Times(' ', n);
    } else {
      assert t[0] == s[0] && t[1..] == s[1..] + Times(' ', n);
      if DigitValue(s[0]) < 10 {
        MantissaThenSpaces(s[1..], n, acc * 10 + DigitValue(s[0]), if point then places + 1 else places, point);
      } else if s[0] == '.' && !point {
        MantissaThenSpaces(s[1..], n, acc, places, true);
      } else {
        ExponentThenSpaces(s[1..], n);
      }
    }
  }

  lemma ZerosThenReal(n: nat, s: string)
    ensures ReadReal(Times('0', n) + s) == ReadReal(s)
  {
    ZerosAreDigits(n);
    MantissaDigits(Times('0', n), s, 0, 0, false);
    ReadScaled(n, 0);
  }

  /** A field in which any padding stands around and inside `sign` and `body`. */
  lemma FieldReads(before: nat, sign: string, zeros: nat, body: string, after: nat)
    requires sign == "" || sign == "-" || sign == "+" || sign == " "
    requires body != "" && DigitValue(body[0]) < 10
    ensures ReadFloat(Times(' ', before) + (sign + (Times('0', zeros) + (body + Times(' ', after)))))
         == SignedScaled(sign == "-", ReadReal(body))
  {
    var number := Times('0', zeros) + (body + Times(' ', after));
    ZerosThenReal(zeros, body + Times(' ', after));
    MantissaThenSpaces(body, after, 0, 0, false);
    assert number[0] == if zeros > 0 then Times('0', zeros)[0] else body[0];
    assert zeros > 0 ==> Times('0', zeros)[0] in Times('0', zeros);
    SkipTimes(before, sign + number);
    SignReads(sign, number);
  }

  lemma SignReads(sign: string, number: string)
    requires sign == "" || sign == "-" || sign == "+" || sign == " "
    requires number != "" && DigitValue(number[0]) < 10
    ensures ReadFloat(sign + number) == SignedScaled(sign == "-", ReadReal(number))
  {
    var t := sign + number;
    if sign == "" {
      assert t == number;
    } else {
      assert t[0] == sign[0] && t[1..] == number;
      assert sign == " " ==> SkipSpaces(t) == SkipSpaces(number) == number;
    }
  }

  lemma PaddedReads(f: Flags, gap: nat, sign: string, body: string)
    requires sign == "" || sign == "-" || sign == "+" || sign == " "
    requires body != "" && DigitValue(body[0]) < 10
    ensures ReadFloat(PadFloat(f, false, gap, sign, body)) == SignedScaled(sign == "-", ReadReal(body))
  {
    var zeros := !f.lpad && f.zfill;
    var before, inner, after := if f.lpad || zeros then 0 else gap, if zeros then gap else 0, if f.lpad then gap else 0;
    FieldReads(before, sign, inner, body, after);
    FieldIs(f, gap, sign, body, before, inner, after);
  }

  lemma FieldIs(f: Flags, gap: nat, sign: string, body: string, before: nat, inner: nat, after: nat)
    requires var zeros := !f.lpad && f.zfill;
             && before == (if f.lpad || zeros then 0 else gap) && inner == (if zeros then gap else 0)
             && after == if f.lpad then gap else 0
    ensures PadFloat(f, false, gap, sign, body)
         == Times(' ', before) + (sign + (Times('0', inner) + (body + Times(' ', after))))
  {
  }

  lemma BodyStarts(conv: char, spec: Spec, r: FtoaResult)
    requires !r.inf && !r.nan && AllDigits(r.digits, 10)
    ensures Body(conv, spec, r) != "" && DigitValue(Body(conv, spec, r)[0]) < 10
  {
    var s := ShapeOf(conv, spec, r);
    FiniteBody(conv, spec, r, s, IsUpper(conv));
    assert r.digits[0] in r.digits;
    if s.fixed {
      FixedStarts(r, s.used, s.prec);
    }
  }

  lemma FixedStarts(r: FtoaResult, used: nat, prec: nat)
    requires used <= 8 && AllDigits(r.digits, 10)
    ensures FixedBody(r, used, prec) != "" && DigitValue(FixedBody(r, used, prec)[0]) < 10
  {
    FixedBodyIs(r, used, prec);
    var p, q := Places(r, used, prec), RoundedPlaces(r, used, prec);
    assert p[0] == PlaceDigit(r, used, Top(r.exp));
    assert Pointed(q, Top(r.exp) + 1)[0] == q[0];
  }

  /** Whatever the flags and the width, the whole field reads as its sign and body. */
  lemma WholeReads(conv: char, spec: Spec, r: FtoaResult)
    requires !r.inf && !r.nan && AllDigits(r.digits, 10)
    ensures ReadFloat(FloatText(conv, spec, r)) == SignedScaled(r.minus, ReadReal(Body(conv, spec, r)))
  {
    var sign, body := SignText(spec.flags, r), Body(conv, spec, r);
    BodyStarts(conv, spec, r);
    TextOfBody(conv, spec, r, sign, body);
    PaddedReads(spec.flags, Room(spec.width, |sign| + |body|), sign, body);
  }

  // ---- main results ---------------------------------------------------------------------

  /** What e prints reads back as the engine's number: its sign, its first prec + 1 digits
      and its exponent. */
  lemma ExponentialReadBack(conv: char, spec: Spec, r: FtoaResult, prec: nat)
    requires conv == 'e' || conv == 'E'
    requires !r.inf && !r.nan && AllDigits(r.digits, 10) && -99 <= r.exp <= 99
    requires prec == if !spec.flags.prec then 6 else if spec.prec > 7 then 7 else spec.prec
    ensures ReadFloat(FloatText(conv, spec, r))
         == SignedScaled(r.minus, Scaled(ReadDigits(r.digits[..prec + 1], 10, 0), r.exp - prec))
  {
    WholeReads(conv, spec, r);
    ExponentialBodyReads(conv, spec, r);
  }

  /** What f prints reads back as the engine's number: its sign and its first digits, of
      which `n` are wanted and 1 to 8 used, in units of the last place printed. */
  lemma FixedReadBack(conv: char, spec: Spec, r: FtoaResult, prec: nat, k: nat, n: nat, used: nat, value: nat)
    requires conv == 'f' || conv == 'F'
    requires prec == if spec.flags.prec then spec.prec else 6
    requires k == r.exp + 1 + prec && k > 0
    requires n == if r.carry && r.digits[0] == '1' then k - 1 else k
    requires used == if n < 1 then 1 else if n > 8 then 8 else n
    requires value == ReadDigits(r.digits[..used], 10, 0) * Power(10, k - used)
    requires !r.inf && !r.nan && AllDigits(r.digits, 10) && -51 <= r.exp <= 67
    ensures ReadFloat(FloatText(conv, spec, r)) == SignedScaled(r.minus, Scaled(value, 0 - prec))
  {
    WholeReads(conv, spec, r);
    FixedBodyReads(conv, spec, r);
    assert InUnits(r, prec) == value;
  }

  /** A number without a digit in the places printed reads back as the 0 or 1 that it
      rounds to, with its sign. */
  lemma SmallReadBack(conv: char, spec: Spec, r: FtoaResult, prec: nat)
    requires conv == 'f' || conv == 'F'
    requires !r.inf && !r.nan && AllDigits(r.digits, 10) && -51 <= r.exp
    requires prec == if spec.flags.prec then spec.prec else 6
    requires r.exp + 1 + prec <= 0
    ensures var up := r.exp + 1 + prec == 0 && (r.digits[0] > '5' || (r.digits[0] == '5' && !r.carry));
            ReadFloat(FloatText(conv, spec, r)) == SignedScaled(r.minus, Scaled(if up then 1 else 0, 0 - prec))
  {
    WholeReads(conv, spec, r);
    SmallBodyReads(conv, spec, r);
  }

  /** A number below the last place. */
  lemma SmallBodyReads(conv: char, spec: Spec, r: FtoaResult)
    requires IsFixed(conv) && !r.inf && !r.nan && ModerateExponent(r.exp) && AllDigits(r.digits, 10)
    requires r.exp + 1 + Precision(conv, spec) <= 0
    ensures var prec := Precision(conv, spec);
            ReadReal(Body(conv, spec, r)) == Scaled(if RoundsUp(r, prec) then 1 else 0, 0 - prec)
  {
    var prec := Precision(conv, spec);
    var p := Times('0', prec + 1);
    FixedConversion(conv, spec, r);
    ZerosAreDigits(prec + 1);
    ReadScaled(prec + 1, 0);
    ZerosThenOne(prec);
    PointedReads(if RoundsUp(r, prec) then p[..prec] + "1" else p, 1);
  }

  lemma ZerosThenOne(n: nat)
    ensures var s := Times('0', n + 1)[..n] + "1";
            AllDigits(s, 10) && ReadDigits(s, 10, 0) == 1
  {
    TimesAppends('0', n);
    assert Times('0', n + 1)[..n] == Times('0', n);
    ZerosAreDigits(n);
    ReadZeros(n, "1", 10);
    assert "1"[1..] == "" && ReadDigits("1", 10, 0) == ReadDigits("", 10, 1);
  }

  /** What g prints reads back as the engine's number: its sign and its digits up to the
      last one in the precision that is not zero, number `p`. */
  lemma GeneralReadBack(conv: char, spec: Spec, r: FtoaResult, prec: nat, p: nat, n: nat)
    requires conv == 'g' || conv == 'G'
    requires !r.inf && !r.nan && AllDigits(r.digits, 10) && -99 <= r.exp <= 99
    requires prec == if !spec.flags.prec then 5 else if spec.prec > 8 then 7 else if spec.prec > 0 then spec.prec - 1 else 0
    requires p <= prec && (p == 0 || r.digits[p] != '0') && forall i :: p < i <= prec ==> r.digits[i] == '0'
    requires n == ReadDigits(r.digits[..p + 1], 10, 0)
    ensures ReadFloat(FloatText(conv, spec, r)) == SignedScaled(r.minus,
              if p < r.exp <= prec then Scaled(n * Power(10, r.exp - p), 0) else Scaled(n, r.exp - p))
  {
    WholeReads(conv, spec, r);
    assert prec == Precision(conv, spec);
    TrimmedIs(r.digits, prec, p);
    GeneralValue(conv, spec, r, prec, p, n);
  }

  lemma GeneralValue(conv: char, spec: Spec, r: FtoaResult, prec: nat, p: nat, n: nat)
    requires prec <= 7 && prec == Precision(conv, spec) && p == Trimmed(r.digits, prec)
    requires n == ReadDigits(r.digits[..p + 1], 10, 0)
    requires AllDigits(r.digits, 10) && -99 <= r.exp <= 99
    requires IsFloat(conv) && !IsFixed(conv) && !IsExponential(conv) && !r.inf && !r.nan
    ensures ReadReal(Body(conv, spec, r))
         == if p < r.exp <= prec then Scaled(n * Power(10, r.exp - p), 0) else Scaled(n, r.exp - p)
  {
    GeneralBodyReads(conv, spec, r);
    GeneralIsFixed(conv, spec, r);
  }

  lemma GeneralIsFixed(conv: char, spec: Spec, r: FtoaResult)
    requires IsFloat(conv) && !IsFixed(conv) && !IsExponential(conv)
    ensures ShapeOf(conv, spec, r).fixed <==> -4 <= r.exp <= Precision(conv, spec)
  {
  }

  lemma TrimmedIs(digits: string, prec: nat, p: nat)
    requires |digits| == 8 && prec <= 7
    requires p <= prec && (p == 0 || digits[p] != '0') && forall i :: p < i <= prec ==> digits[i] == '0'
    ensures Trimmed(digits, prec) == p
  {
  }

  // ---- the characters ---------------------------------------------------------------------

  /** Without a width the text is the body behind at most one character: `-` exactly for a
      negative number or infinity, else `+` or a space where the flags ask for it. */
  lemma SignOfBare(conv: char, spec: Spec, r: FtoaResult)
    ensures var bare, body := FloatText(conv, spec.(width := 0), r), Body(conv, spec, r);
            if r.minus && !r.nan then bare == "-" + body
            else if spec.flags.plus then bare == "+" + body
            else if spec.flags.space then bare == " " + body
            else bare == body
  {
    BareFloat(conv, spec, r);
    assert "" + Body(conv, spec, r) == Body(conv, spec, r);
  }

  /** The width is filled up behind sign and body with `-`, with zeros between them with
      `0`, which inf and nan ignore, and with spaces in front of them otherwise. */
  lemma WidthOfField(conv: char, spec: Spec, r: FtoaResult, sign: string, body: string, gap: nat)
    requires sign == if r.minus && !r.nan then "-" else if spec.flags.plus then "+" else if spec.flags.space then " " else ""
    requires body == Body(conv, spec, r)
    requires gap == if |sign| + |body| < spec.width then spec.width - (|sign| + |body|) else 0
    ensures Fills(FloatText(conv, spec, r), sign + body, spec.flags.lpad, spec.flags.zfill && !r.inf && !r.nan, |sign|, gap)
  {
    TextOfBody(conv, spec, r, sign, body);
    PadFills(FloatText(conv, spec, r), spec.flags, spec.width, r.inf || r.nan, gap, sign, body);
  }

  lemma PadFills(text: string, f: Flags, width: nat, special: bool, gap: nat, sign: string, body: string)
    requires text == PadFloat(f, special, Room(width, |sign| + |body|), sign, body)
    requires gap == if |sign| + |body| < width then width - (|sign| + |body|) else 0
    ensures Fills(text, sign + body, f.lpad, f.zfill && !special, |sign|, gap)
  {
    PadOfBare(f, special, gap, sign, body);
    Filled(text, sign + body, f.lpad, f.zfill && !special, |sign|, gap);
  }

  /** inf and nan are spelled out in the case of the conversion. */
  lemma SpecialBody(conv: char, spec: Spec, r: FtoaResult)
    requires r.inf || r.nan
    ensures conv == 'e' || conv == 'f' || conv == 'g' ==> Body(conv, spec, r) == if r.nan then "nan" else "inf"
    ensures conv == 'E' || conv == 'F' || conv == 'G' ==> Body(conv, spec, r) == if r.nan then "NAN" else "INF"
  {
  }

  /** Digit, point and digits, then the exponent: its letter in the case of the
      conversion, its sign and two digits.  The number 1 that the engine rounded up from
      below gets a minus. */
  lemma ExponentialShape(conv: char, spec: Spec, r: FtoaResult, prec: nat)
    requires conv == 'e' || conv == 'E'
    requires prec == if !spec.flags.prec then 6 else if spec.prec > 7 then 7 else spec.prec
    requires !r.inf && !r.nan && -99 <= r.exp <= 99
    ensures var body := Body(conv, spec, r);
            var n := if prec > 0 then prec + 2 else 1;
            && |body| == n + 4 && body[0] == r.digits[0]
            && (prec > 0 ==> body[1] == '.' && body[2..n] == r.digits[1..prec + 1])
            && body[n] == conv
            && (body[n + 1] == '-' <==> r.exp < 0 || (r.exp == 0 && r.carry && r.digits[0] == '1'))
            && (body[n + 1] == '+' <==> body[n + 1] != '-')
            && '0' <= body[n + 2] <= '9' && '0' <= body[n + 3] <= '9'
  {
    assert Body(conv, spec, r) == ExponentialBody(r, prec, conv == 'E');
    ExponentTextIs(r, conv == 'E');
    ExponentialParts(r, prec, conv == 'E', ExponentText(r, conv == 'E'));
  }

  lemma ExponentTextIs(r: FtoaResult, upper: bool)
    requires -99 <= r.exp <= 99
    ensures var t := ExponentText(r, upper);
            && |t| == 4 && t[0] == (if upper then 'E' else 'e')
            && t[1] == (if r.exp < 0 || (r.exp == 0 && r.carry && r.digits[0] == '1') then '-' else '+')
            && '0' <= t[2] <= '9' && '0' <= t[3] <= '9'
  {
    DigitByte(Magnitude(r.exp) / 10);
    DigitByte(Magnitude(r.exp) % 10);
  }

  lemma DigitByte(d: nat)
    requires d < 10
    ensures '0' <= ByteChar('0' as int + d) <= '9'
  {
  }

  lemma ExponentialParts(r: FtoaResult, prec: nat, upper: bool, t: string)
    requires prec <= 7 && t == ExponentText(r, upper)
    ensures var body, n := ExponentialBody(r, prec, upper), if prec > 0 then prec + 2 else 1;
            && |body| == n + 4 && body[0] == r.digits[0]
            && (prec > 0 ==> body[1] == '.' && body[2..n] == r.digits[1..prec + 1])
            && body[n..] == t && body[n] == t[0] && body[n + 1] == t[1] && body[n + 2] == t[2] && body[n + 3] == t[3]
  {
  }

  /** Positional text of f: a point in front of exactly the places that the precision asks
      for, and only digits otherwise. */
  lemma FixedShape(conv: char, spec: Spec, r: FtoaResult, prec: nat, whole: nat)
    requires conv == 'f' || conv == 'F'
    requires prec == if spec.flags.prec then spec.prec else 6
    requires whole == if r.exp > 0 then r.exp + 1 else 1
    requires !r.inf && !r.nan && AllDigits(r.digits, 10)
    ensures var body := Body(conv, spec, r);
            && |body| == (if prec > 0 then whole + 1 + prec else whole)
            && (prec > 0 ==> body[whole] == '.')
            && forall i :: 0 <= i < |body| && i != whole ==> DigitValue(body[i]) < 10
  {
    var s := ShapeOf(conv, spec, r);
    FiniteBody(conv, spec, r, s, IsUpper(conv));
    PositionalShape(r, s.used, prec);
  }

  lemma PositionalShape(r: FtoaResult, used: nat, prec: nat)
    requires used <= 8 && AllDigits(r.digits, 10)
    ensures var body, whole := FixedBody(r, used, prec), Top(r.exp) + 1;
            && |body| == (if prec > 0 then whole + 1 + prec else whole)
            && (prec > 0 ==> body[whole] == '.')
            && forall i :: 0 <= i < |body| && i != whole ==> DigitValue(body[i]) < 10
  {
    FixedBodyIs(r, used, prec);
    var q := RoundedPlaces(r, used, prec);
    PlacesAreDigits(r, used, prec);
    PointedShape(q, Top(r.exp) + 1);
  }

  lemma PlacesAreDigits(r: FtoaResult, used: nat, prec: nat)
    requires used <= 8 && AllDigits(r.digits, 10)
    ensures |RoundedPlaces(r, used, prec)| == Top(r.exp) + 1 + prec
    ensures AllDigits(RoundedPlaces(r, used, prec), 10)
  {
    var p, q := Places(r, used, prec), RoundedPlaces(r, used, prec);
    forall i | 0 <= i < |q|
      ensures DigitValue(q[i]) < 10
    {
      assert p[i] == PlaceDigit(r, used, Top(r.exp) - i);
    }
  }

  lemma PointedShape(p: string, point: nat)
    requires AllDigits(p, 10) && point <= |p|
    ensures var s := Pointed(p, point);
            && |s| == (if point < |p| then |p| + 1 else |p|) && (point < |p| ==> s[point] == '.')
            && forall i :: 0 <= i < |s| && i != point ==> DigitValue(s[i]) < 10
  {
    var s := Pointed(p, point);
    forall i | 0 <= i < |s| && i != point
      ensures DigitValue(s[i]) < 10
    {
      assert s[i] == if i < point then p[i] else p[i - 1];
      assert s[i] in p;
    }
  }

  /** g has an exponent exactly outside of -4 to the precision. */
  lemma GeneralLayout(conv: char, spec: Spec, r: FtoaResult, prec: nat)
    requires conv == 'g' || conv == 'G'
    requires prec == if !spec.flags.prec then 5 else if spec.prec > 8 then 7 else if spec.prec > 0 then spec.prec - 1 else 0
    requires !r.inf && !r.nan && AllDigits(r.digits, 10)
    ensures var body := Body(conv, spec, r);
            if -4 <= r.exp <= prec then forall c <- body :: c == '.' || DigitValue(c) < 10
            else |body| >= 5 && body[|body| - 4] == if conv == 'g' then 'e' else 'E'
  {
    var s := ShapeOf(conv, spec, r);
    FiniteBody(conv, spec, r, s, IsUpper(conv));
    GeneralIsFixed(conv, spec, r);
    if s.fixed {
      PositionalCharacters(r, s.used, s.prec);
    } else {
      ExponentialParts(r, s.prec, IsUpper(conv), ExponentText(r, IsUpper(conv)));
    }
  }

  lemma PositionalCharacters(r: FtoaResult, used: nat, prec: nat)
    requires used <= 8 && AllDigits(r.digits, 10)
    ensures forall c <- FixedBody(r, used, prec) :: c == '.' || DigitValue(c) < 10
  {
    PositionalShape(r, used, prec);
  }

  /** What the engine is asked for. */
  lemma EngineRequest(engine: Engine, conv: char, spec: Spec, bits: int, prec: Byte)
    requires prec == if spec.flags.prec then spec.prec else 6
    ensures conv == 'f' || conv == 'F' ==>
              Digitise(engine, conv, spec, bits) == engine(bits, 7, if prec < 60 then prec + 1 else 60)
    ensures conv == 'e' || conv == 'E' ==>
              Digitise(engine, conv, spec, bits) == engine(bits, if prec > 7 then 7 else prec, 0)
    ensures conv == 'g' || conv == 'G' ==>
              Digitise(engine, conv, spec, bits)
              == engine(bits, if prec > 8 then 7 else if prec > 0 then prec - 1 else 0, 0)
  {
  }
}
