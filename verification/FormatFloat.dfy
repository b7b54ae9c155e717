/** What `_vprintf` prints for c, s, S and for e, f, g, E, F, G. */
module FormatFloat {
  import opened Bits
  import opened FormatSpec
  import opened FormatInteger

  // ---- strings -------------------------------------------------------------------

  /** `strnlen`: the length up to a NUL, at most `limit`. */
  function BoundedLength(s: string, limit: nat): (n: nat)
    ensures n <= |s| && n <= limit
    ensures '\0' !in s[..n]
    ensures n == |s| || n == limit || s[n] == '\0'
    decreases |s|
  {
    if s == "" || limit == 0 || s[0] == '\0' then 0
    else
      var n := BoundedLength(s[1..], limit - 1);
      assert s[..n + 1] == [s[0]] + s[1..][..n];
      n + 1
  }

  /** The part of a string argument that is printed; without a precision the
      bound is the largest 16-bit `size_t`. */
  function Printed(spec: Spec, s: string): string {
    s[..BoundedLength(s, if spec.flags.prec then spec.prec else 0xFFFF)]
  }

  /** Padding to the width with spaces, after the text with `-`. */
  function Padded(spec: Spec, text: string): string {
    var gap := spec.width - |text|;
    if spec.flags.lpad then text + Times(' ', gap) else Times(' ', gap) + text
  }

  lemma PaddedLength(spec: Spec, text: string)
    ensures |Padded(spec, text)| == if |text| < spec.width then spec.width else |text|
  {
  }

  // ---- floating point ------------------------------------------------------------

  /** The result of `__ftoa_engine`: flags, decimal exponent of the first digit,
      and the bytes `buf[1..8]`. */
  datatype FtoaDigits = FtoaDigits(minus: bool, inf: bool, nan: bool, carry: bool, exp: int, digits: string)

  type FtoaResult = d: FtoaDigits | |d.digits| == 8 witness FtoaDigits(false, false, false, false, 0, "00000000")

  /** A double, by its representation, and how many digits are wanted. */
  type Engine = (int, Byte, Byte) -> FtoaResult

  predicate IsFloat(conv: char) {
    'E' <= conv <= 'G' || 'e' <= conv <= 'g'
  }

  predicate IsUpper(conv: char) {
    'E' <= conv <= 'G'
  }

  predicate IsFixed(conv: char) {
    conv == 'f' || conv == 'F'
  }

  predicate IsExponential(conv: char) {
    conv == 'e' || conv == 'E'
  }

  /** The precision after its default, the adjustment of g, and, except for f, the limit of 7. */
  function Precision(conv: char, spec: Spec): Byte {
    var prec := if spec.flags.prec then spec.prec else 6;
    if IsFixed(conv) then prec
    else
      var p := if !IsExponential(conv) && prec > 0 then prec - 1 else prec;
      if p > 7 then 7 else p
  }

  /** The digits requested from the engine by f; the other conversions pass 0. */
  function WantedDigits(conv: char, prec: Byte): Byte {
    if IsFixed(conv) then (if prec < 60 then prec + 1 else 60) else 0
  }

  function Digitise(engine: Engine, conv: char, spec: Spec, bits: int): FtoaResult {
    var prec := Precision(conv, spec);
    engine(bits, if IsFixed(conv) then 7 else prec, WantedDigits(conv, prec))
  }

  function SignText(f: Flags, r: FtoaResult): string {
    if r.minus && !r.nan then "-" else if f.plus then "+" else if f.space then " " else ""
  }

  /** How many digits of `buf` the f format uses, in the arithmetic of the code. */
  function UsedDigits(r: FtoaResult, wanted: Byte): (n: nat)
    ensures 1 <= n <= 8
  {
    var n := (wanted + r.exp) % 256;
    var m := if r.carry && r.digits[0] == '1' then (n - 1) % 256 else n;
    if m < 1 || m >= 128 then 1 else if m > 8 then 8 else m
  }

  /** The last place that g keeps: behind it there are only zeros. */
  function Trimmed(digits: string, prec: nat): (n: nat)
    requires |digits| == 8 && prec <= 7
    ensures n <= prec && (n == 0 || digits[n] != '0')
    ensures forall i :: n < i <= prec ==> digits[i] == '0'
  {
    if prec > 0 && digits[prec] == '0' then Trimmed(digits, prec - 1) else prec
  }

  /** The layout of the digits: positional or with an exponent, the number of
      digits after the point, and how many digits of `buf` take part. */
  datatype Shape = Shape(fixed: bool, prec: nat, used: nat)

  function ShapeOf(conv: char, spec: Spec, r: FtoaResult): (s: Shape)
    ensures s.used <= 8 && (!s.fixed ==> s.prec <= 7) && s.prec <= 255
  {
    var prec := Precision(conv, spec);
    if IsFixed(conv) then Shape(true, prec, UsedDigits(r, WantedDigits(conv, prec)))
    else if IsExponential(conv) then Shape(false, prec, 0)
    else
      var p := Trimmed(r.digits, prec);
      if -4 <= r.exp <= prec then Shape(true, if p > r.exp then p - r.exp else 0, p + 1)
      else Shape(false, p, 0)
  }

  // ---- positional text -------------------------------------------------------------

  /** The place of the leftmost digit printed. */
  function Top(exp: int): nat {
    if exp > 0 then exp else 0
  }

  /** The digit at place `n`, the power of ten it stands for. */
  function PlaceDigit(r: FtoaResult, used: nat, n: int): char
    requires used <= 8
  {
    if n <= r.exp && n > r.exp - used then r.digits[r.exp - n] else '0'
  }

  /** Digits of all places from the top down to `-prec`. */
  function Places(r: FtoaResult, used: nat, prec: nat): string
    requires used <= 8
  {
    seq(Top(r.exp) + 1 + prec, i requires 0 <= i => PlaceDigit(r, used, Top(r.exp) - i))
  }

  /** The number lies just below the last place and rounds up to one unit there. */
  predicate RoundsUp(r: FtoaResult, prec: nat) {
    r.exp + prec + 1 == 0 && (r.digits[0] > '5' || (r.digits[0] == '5' && !r.carry))
  }

  function RoundedPlaces(r: FtoaResult, used: nat, prec: nat): string
    requires used <= 8
  {
    var p := Places(r, used, prec);
    if RoundsUp(r, prec) then p[..|p| - 1] + "1" else p
  }

  /** The first `k` places of `p`, with a point in front of place number `point`. */
  function WithPoint(p: string, point: nat, k: nat): string
    requires k <= |p|
  {
    if k == 0 then ""
    else WithPoint(p, point, k - 1) + (if k - 1 == point then "." else "") + [p[k - 1]]
  }

  lemma WithPointStep(p: string, point: nat, k: nat)
    requires k < |p|
    ensures WithPoint(p, point, k + 1) == WithPoint(p, point, k) + (if k == point then "." else "") + [p[k]]
  {
  }

  /** Integer part, point, fraction. */
  lemma {:induction false} WithPointIs(p: string, point: nat, k: nat)
    requires k <= |p|
    ensures WithPoint(p, point, k) == if k <= point then p[..k] else p[..point] + "." + p[point..k]
  {
    if k > 0 {
      WithPointIs(p, point, k - 1);
      assert p[..k] == p[..k - 1] + [p[k - 1]];
      if k > point {
        assert p[point..k] == p[point..k - 1] + [p[k - 1]];
      }
    }
  }

  lemma {:induction false} WithPointAgrees(p: string, q: string, point: nat, k: nat)
    requires k <= |p| && k <= |q| && p[..k] == q[..k]
    ensures WithPoint(p, point, k) == WithPoint(q, point, k)
  {
    if k > 0 {
      assert p[..k - 1] == p[..k][..k - 1] == q[..k][..k - 1] == q[..k - 1];
      assert p[k - 1] == p[..k][k - 1] == q[..k][k - 1] == q[k - 1];
      WithPointAgrees(p, q, point, k - 1);
    }
  }

  /** Rounding touches only the last place. */
  lemma WithPointRounded(r: FtoaResult, used: nat, prec: nat)
    requires used <= 8
    ensures var p, q, point := Places(r, used, prec), RoundedPlaces(r, used, prec), Top(r.exp) + 1;
            |p| == |q| == point + prec && WithPoint(q, point, |q| - 1) == WithPoint(p, point, |p| - 1)
  {
    var p, q, point := Places(r, used, prec), RoundedPlaces(r, used, prec), Top(r.exp) + 1;
    assert q[..|q| - 1] == p[..|p| - 1];
    WithPointAgrees(p, q, point, |p| - 1);
  }

  function FixedBody(r: FtoaResult, used: nat, prec: nat): string
    requires used <= 8
  {
    var p := RoundedPlaces(r, used, prec);
    WithPoint(p, Top(r.exp) + 1, |p|)
  }

  // ---- text with an exponent -------------------------------------------------------

  predicate NegativeExponent(r: FtoaResult) {
    r.exp < 0 || (r.exp == 0 && r.carry && r.digits[0] == '1')
  }

  function ByteChar(x: int): char {
    (x % 256) as char
  }

  /** Tens and ones of the exponent, each computed in one byte. */
  function ExponentText(r: FtoaResult, upper: bool): string {
    var e := Magnitude(r.exp);
    var tens := e / 10;
    [if upper then 'E' else 'e', if NegativeExponent(r) then '-' else '+',
     ByteChar('0' as int + tens), ByteChar('0' as int + e - 10 * tens)]
  }

  function ExponentialBody(r: FtoaResult, prec: nat, upper: bool): string
    requires prec <= 7
  {
    [r.digits[0]] + (if prec > 0 then "." + r.digits[1..prec + 1] else "") + ExponentText(r, upper)
  }

  // ---- the whole conversion ----------------------------------------------------------

  function Special(r: FtoaResult, upper: bool): string {
    if r.nan then (if upper then "NAN" else "nan") else (if upper then "INF" else "inf")
  }

  function Body(conv: char, spec: Spec, r: FtoaResult): string {
    if r.inf || r.nan then Special(r, IsUpper(conv))
    else
      ShapedBody(ShapeOf(conv, spec, r), r, IsUpper(conv))
  }

  function ShapedBody(s: Shape, r: FtoaResult, upper: bool): string
    requires s.used <= 8 && (!s.fixed ==> s.prec <= 7)
  {
    if s.fixed then FixedBody(r, s.used, s.prec) else ExponentialBody(r, s.prec, upper)
  }

  /** The free space left by `length` characters. */
  function Room(width: nat, length: nat): nat {
    if length < width then width - length else 0
  }

  /** Padding to the width: after the number with `-`, zeros between sign and
      digits with `0` (not for inf and nan), spaces before it otherwise. */
  function FloatText(conv: char, spec: Spec, r: FtoaResult): string {
    var sign, body := SignText(spec.flags, r), Body(conv, spec, r);
    PadFloat(spec.flags, r.inf || r.nan, Room(spec.width, |sign| + |body|), sign, body)
  }

  function PadFloat(f: Flags, special: bool, gap: nat, sign: string, body: string): string {
    if f.lpad then sign + body + Times(' ', gap)
    else if f.zfill && !special then sign + Times('0', gap) + body
    else Times(' ', gap) + sign + body
  }

  lemma FiniteBody(conv: char, spec: Spec, r: FtoaResult, shape: Shape, upper: bool)
    requires !r.inf && !r.nan && shape == ShapeOf(conv, spec, r) && upper == IsUpper(conv)
    ensures Body(conv, spec, r) == ShapedBody(shape, r, upper)
  {
  }

  lemma TextOfBody(conv: char, spec: Spec, r: FtoaResult, sign: string, body: string)
    requires sign == SignText(spec.flags, r) && body == Body(conv, spec, r)
    ensures FloatText(conv, spec, r)
         == PadFloat(spec.flags, r.inf || r.nan, Room(spec.width, |sign| + |body|), sign, body)
  {
  }

  lemma PadSpecialAppended(before: string, f: Flags, gap: nat, sign: string, body: string)
    ensures before + PadFloat(f, true, gap, sign, body)
         == before + (if f.lpad then "" else Times(' ', gap)) + sign + body
            + Times(' ', if f.lpad then gap else 0)
  {
  }

  lemma PadFloatAppended(before: string, f: Flags, gap: nat, sign: string, body: string)
    ensures before + PadFloat(f, false, gap, sign, body)
         == before + (if f.lpad || f.zfill then "" else Times(' ', gap)) + sign
            + (if f.lpad || !f.zfill then "" else Times('0', gap)) + body
            + Times(' ', if f.lpad then gap else 0)
  {
  }

  /** The length that the code computes before it prints anything. */
  function ComputedLength(s: Shape, sign: string, r: FtoaResult): nat {
    (if s.fixed then Top(r.exp) + 1 else 5) + |sign| + if s.prec > 0 then s.prec + 1 else 0
  }

  lemma BodyLength(s: Shape, r: FtoaResult, upper: bool, sign: string)
    requires s.used <= 8 && (!s.fixed ==> s.prec <= 7)
    ensures |sign| + |ShapedBody(s, r, upper)| == ComputedLength(s, sign, r)
  {
    if s.fixed {
      var p := RoundedPlaces(r, s.used, s.prec);
      WithPointIs(p, Top(r.exp) + 1, |p|);
    }
  }

  lemma RoomBeside(width: nat, s: Shape, r: FtoaResult, upper: bool, sign: string)
    requires s.used <= 8 && (!s.fixed ==> s.prec <= 7)
    ensures Room(width, ComputedLength(s, sign, r)) == Room(width, |sign| + |ShapedBody(s, r, upper)|)
  {
    BodyLength(s, r, upper, sign);
  }

  /** Every floating-point conversion has max(width, natural length) characters. */
  lemma FloatLength(conv: char, spec: Spec, r: FtoaResult)
    ensures var n := |SignText(spec.flags, r)| + |Body(conv, spec, r)|;
            |FloatText(conv, spec, r)| == if n < spec.width then spec.width else n
  {
  }

  /** Padding surrounds or enters the text without a width and changes nothing
      else in it; `0` does not apply to inf and nan. */
  lemma FloatPadding(conv: char, spec: Spec, r: FtoaResult)
    ensures var text, bare, f := FloatText(conv, spec, r), FloatText(conv, spec.(width := 0), r), spec.flags;
            var n, gap := |SignText(f, r)|, Room(spec.width, |bare|);
            var zeros := !f.lpad && f.zfill && !r.inf && !r.nan;
            && bare == SignText(f, r) + Body(conv, spec, r)
            && (f.lpad ==> text == bare + Times(' ', gap))
            && (zeros ==> text == bare[..n] + Times('0', gap) + bare[n..])
            && (!f.lpad && !zeros ==> text == Times(' ', gap) + bare)
  {
    BareFloat(conv, spec, r);
    PadOfBare(spec.flags, r.inf || r.nan,
              Room(spec.width, |SignText(spec.flags, r)| + |Body(conv, spec, r)|),
              SignText(spec.flags, r), Body(conv, spec, r));
  }

  lemma BareFloat(conv: char, spec: Spec, r: FtoaResult)
    ensures FloatText(conv, spec.(width := 0), r) == SignText(spec.flags, r) + Body(conv, spec, r)
  {
    WidthOnlyPads(conv, spec, r);
    PadOfBare(spec.flags, r.inf || r.nan, 0, SignText(spec.flags, r), Body(conv, spec, r));
  }

  lemma WidthOnlyPads(conv: char, spec: Spec, r: FtoaResult)
    ensures Body(conv, spec.(width := 0), r) == Body(conv, spec, r)
  {
    assert ShapeOf(conv, spec.(width := 0), r) == ShapeOf(conv, spec, r);
  }

  lemma PadOfBare(f: Flags, special: bool, gap: nat, sign: string, body: string)
    ensures PadFloat(f, special, 0, sign, body) == sign + body
    ensures (sign + body)[..|sign|] == sign && (sign + body)[|sign|..] == body
    ensures var zeros := !f.lpad && f.zfill && !special;
            && (f.lpad ==> PadFloat(f, special, gap, sign, body) == sign + body + Times(' ', gap))
            && (zeros ==> PadFloat(f, special, gap, sign, body) == sign + Times('0', gap) + body)
            && (!f.lpad && !zeros ==> PadFloat(f, special, gap, sign, body) == Times(' ', gap) + (sign + body))
  {
  }

  /** For exponents of at most two digits the exponent field reads back as the
      magnitude of the engine's exponent. */
  lemma ExponentReadBack(r: FtoaResult, upper: bool)
    requires -99 <= r.exp <= 99
    ensures var t := ExponentText(r, upper);
            && |t| == 4 && ReadDigits(t[2..], 10, 0) == Magnitude(r.exp)
            && (t[1] == '-' <==> NegativeExponent(r)) && (r.exp < 0 ==> t[1] == '-')
  {
    var t, e := ExponentText(r, upper), Magnitude(r.exp);
    assert t[2..] == [t[2], t[3]];
    DecimalCharacter(e / 10);
    DecimalCharacter(e % 10);
    ReadTwo(t[2], t[3]);
  }

  lemma DecimalCharacter(d: nat)
    requires d < 10
    ensures DigitValue(ByteChar('0' as int + d)) == d
  {
  }

  lemma ReadTwo(a: char, b: char)
    requires DigitValue(a) < 10 && DigitValue(b) < 10
    ensures ReadDigits([a, b], 10, 0) == 10 * DigitValue(a) + DigitValue(b)
  {
    assert [a, b][1..] == [b] && [b][1..] == "";
    assert ReadDigits([a, b], 10, 0) == ReadDigits([b], 10, DigitValue(a));
    assert ReadDigits([b], 10, DigitValue(a)) == ReadDigits("", 10, 10 * DigitValue(a) + DigitValue(b));
  }

  /** Digits the engine produced, then zeros: its number, digit by digit. */
  function Significant(r: FtoaResult, used: nat, k: nat): string
    requires used <= 8
  {
    if k <= used then r.digits[..k] else r.digits[..used] + Times('0', k - used)
  }

  /** Without its point, positional text is leading zeros and then exactly the
      first exp + 1 + prec significant digits, unless the last place is rounded
      up to 1.  So each digit stands at the power of ten the engine gave it. */
  lemma FixedPlaces(r: FtoaResult, used: nat, prec: nat)
    requires used <= 8
    ensures var k := r.exp + 1 + prec;
            Places(r, used, prec)
            == if k < 0 then Times('0', prec + 1)
               else Times('0', Top(r.exp) - r.exp) + Significant(r, used, k)
  {
    var p, k := Places(r, used, prec), r.exp + 1 + prec;
    if k < 0 {
      forall i | 0 <= i < |p|
        ensures p[i] == '0'
      {
        assert p[i] == PlaceDigit(r, used, Top(r.exp) - i);
      }
      assert p == Times('0', prec + 1) by { AllSame(p, '0'); }
    } else {
      var z := Top(r.exp) - r.exp;
      var q := Times('0', z) + Significant(r, used, k);
      assert |p| == |q|;
      forall i | 0 <= i < |p|
        ensures p[i] == q[i]
      {
        assert p[i] == PlaceDigit(r, used, Top(r.exp) - i);
        if i < z {
          assert q[i] == Times('0', z)[i] && q[i] in Times('0', z);
        } else {
          var j := i - z;
          assert q[i] == Significant(r, used, k)[j];
          assert Top(r.exp) - i == r.exp - j;
          if j >= used {
            assert Significant(r, used, k)[j] == Times('0', k - used)[j - used];
            assert Times('0', k - used)[j - used] in Times('0', k - used);
          }
        }
      }
    }
  }

  lemma AllSame(s: string, c: char)
    requires forall i :: 0 <= i < |s| ==> s[i] == c
    ensures s == Times(c, |s|)
  {
    forall i | 0 <= i < |s|
      ensures s[i] == Times(c, |s|)[i]
    {
      assert Times(c, |s|)[i] in Times(c, |s|);
    }
  }

  // ---- what f and g print -----------------------------------------------------------

  /** The engine rounded up to a power of ten. */
  predicate Carried(r: FtoaResult) {
    r.carry && r.digits[0] == '1'
  }

  function Clamp(x: int, lo: int, hi: int): int {
    if x < lo then lo else if x > hi then hi else x
  }

  /** Decimal exponents for which the byte arithmetic of f is exact; those of a
      32-bit `double`, from -45 to 38, are among them. */
  predicate ModerateExponent(exp: int) {
    -51 <= exp <= 67
  }

  /** For up to 60 wanted digits the byte arithmetic is exact in this range. */
  lemma UsedIs(r: FtoaResult, wanted: Byte)
    requires 1 <= wanted <= 60 && -67 <= r.exp <= 67
    ensures UsedDigits(r, wanted) == Clamp(wanted + r.exp - if Carried(r) then 1 else 0, 1, 8)
  {
    var n := wanted + r.exp;
    ByteOf(n);
    ByteOf(n % 256 - 1);
  }

  lemma ByteOf(n: int)
    requires -256 <= n < 256
    ensures n % 256 == if n < 0 then n + 256 else n
  {
  }

  /** The digits f uses: all places from the first digit down to the last one
      printed, one less after a carry, but at least 1 and at most 8. */
  lemma FixedUses(r: FtoaResult, conv: char, prec: Byte)
    requires IsFixed(conv) && ModerateExponent(r.exp)
    ensures UsedDigits(r, WantedDigits(conv, prec))
         == Clamp(r.exp + 1 + prec - if Carried(r) then 1 else 0, 1, 8)
  {
    UsedIs(r, WantedDigits(conv, prec));
  }

  /** Beyond these exponents the byte wraps: an engine that answered 100 for 60
      wanted digits would get one digit printed. */
  lemma HugeExponentWraps(r: FtoaResult)
    requires r.exp == 100
    ensures UsedDigits(r, 60) == 1
  {
  }

  /** The digits of all places that f prints, without the point: zeros, the
      engine's digits as far as they go, zeros. */
  function FixedDigits(r: FtoaResult, prec: nat): string {
    var k := r.exp + 1 + prec;
    var used := Clamp(k - if Carried(r) then 1 else 0, 1, 8);
    if k <= 0 then Times('0', prec + 1)
    else Times('0', Top(r.exp) - r.exp) + (r.digits[..used] + Times('0', k - used))
  }

  lemma FixedPlacesAre(r: FtoaResult, conv: char, prec: Byte)
    requires IsFixed(conv) && ModerateExponent(r.exp)
    ensures Places(r, UsedDigits(r, WantedDigits(conv, prec)), prec) == FixedDigits(r, prec)
  {
    var used, k := UsedDigits(r, WantedDigits(conv, prec)), r.exp + 1 + prec;
    FixedUses(r, conv, prec);
    FixedPlaces(r, used, prec);
    if k == 0 {
      assert r.digits[..0] == "" && Times('0', prec + 1) + "" == Times('0', prec + 1);
    } else if k == used {
      assert r.digits[..used] + "" == r.digits[..used];
    }
  }

  /** Integer part, point and fraction of a string of digits. */
  function Pointed(p: string, point: nat): string
    requires point <= |p|
  {
    if point == |p| then p else p[..point] + "." + p[point..]
  }

  /** What f prints behind the sign: the digits above with a point in front of the
      last `prec` of them, the very last one 1 if the number lies just below that
      place and rounds up to it. */
  lemma FixedConversion(conv: char, spec: Spec, r: FtoaResult)
    requires IsFixed(conv) && !r.inf && !r.nan && ModerateExponent(r.exp)
    ensures var prec := Precision(conv, spec);
            var p := FixedDigits(r, prec);
            && |p| == Top(r.exp) + 1 + prec
            && Body(conv, spec, r)
               == Pointed(if RoundsUp(r, prec) then p[..|p| - 1] + "1" else p, Top(r.exp) + 1)
  {
    var prec := Precision(conv, spec);
    var used := UsedDigits(r, WantedDigits(conv, prec));
    FixedPlacesAre(r, conv, prec);
    FixedBodyIs(r, used, prec);
    assert Body(conv, spec, r) == FixedBody(r, used, prec);
  }

  lemma FixedBodyIs(r: FtoaResult, used: nat, prec: nat)
    requires used <= 8
    ensures FixedBody(r, used, prec) == Pointed(RoundedPlaces(r, used, prec), Top(r.exp) + 1)
  {
    var q := RoundedPlaces(r, used, prec);
    WithPointIs(q, Top(r.exp) + 1, |q|);
    assert q[..|q|] == q;
  }

  /** Read as an integer, the places are the engine's digits times a power of ten:
      the number itself, in units of the last place printed. */
  lemma FixedValue(r: FtoaResult, prec: nat)
    requires AllDigits(r.digits, 10) && r.exp + 1 + prec > 0
    ensures var k := r.exp + 1 + prec;
            var used := Clamp(k - if Carried(r) then 1 else 0, 1, 8);
            ReadDigits(FixedDigits(r, prec), 10, 0)
            == ReadDigits(r.digits[..used], 10, 0) * Power(10, k - used)
  {
    var k := r.exp + 1 + prec;
    var used := Clamp(k - if Carried(r) then 1 else 0, 1, 8);
    var digits, zeros := r.digits[..used], Times('0', k - used);
    ReadZeros(Top(r.exp) - r.exp, digits + zeros, 10);
    ReadConcat(digits, zeros, 10, 0);
    ReadScaled(k - used, ReadDigits(digits, 10, 0));
  }

  lemma {:induction false} ReadConcat(s: string, t: string, base: nat, acc: nat)
    requires AllDigits(s, base)
    ensures ReadDigits(s + t, base, acc) == ReadDigits(t, base, ReadDigits(s, base, acc))
    decreases |s|
  {
    if s == "" {
      assert "" + t == t;
    } else {
      assert (s + t)[0] == s[0] && (s + t)[1..] == s[1..] + t;
      ReadConcat(s[1..], t, base, acc * base + DigitValue(s[0]));
    }
  }

  lemma {:induction false} ReadScaled(n: nat, acc: nat)
    ensures ReadDigits(Times('0', n), 10, acc) == acc * Power(10, n)
  {
    if n > 0 {
      assert Times('0', n)[0] == '0' && Times('0', n)[1..] == Times('0', n - 1);
      ReadScaled(n - 1, acc * 10);
      TenTimes(acc, Power(10, n - 1));
    }
  }

  lemma TenTimes(acc: nat, p: nat)
    ensures (acc * 10) * p == acc * (10 * p)
  {
  }

  /** The first `p + 1` digits with their zeros, when nothing behind them is printed. */
  lemma SignificantPlaces(r: FtoaResult, p: nat, prec: nat)
    requires p <= 7 && prec == if p > r.exp then p - r.exp else 0
    ensures Places(r, p + 1, prec) == GeneralPlaces(r, p) && |GeneralPlaces(r, p)| == Top(r.exp) + 1 + prec
  {
    FixedPlaces(r, p + 1, prec);
    assert r.digits[..p + 1] + "" == r.digits[..p + 1];
  }

  /** The significant digits of g in the positional layout. */
  function GeneralPlaces(r: FtoaResult, p: nat): string
    requires p <= 7
  {
    Times('0', Top(r.exp) - r.exp) + (r.digits[..p + 1] + Times('0', r.exp - p))
  }

  /** g prints the same significant digits in both layouts, the first ones up to
      the last that is not zero; positional text fills the places of ten below them
      with zeros and is never rounded. */
  lemma GeneralDigits(conv: char, spec: Spec, r: FtoaResult)
    requires IsFloat(conv) && !IsFixed(conv) && !IsExponential(conv) && !r.inf && !r.nan
    ensures var s, p := ShapeOf(conv, spec, r), Trimmed(r.digits, Precision(conv, spec));
            if s.fixed then
              && |GeneralPlaces(r, p)| == Top(r.exp) + 1 + (if p > r.exp then p - r.exp else 0)
              && Body(conv, spec, r) == Pointed(GeneralPlaces(r, p), Top(r.exp) + 1)
            else Body(conv, spec, r) == ExponentialBody(r, p, IsUpper(conv))
  {
    var s, p := ShapeOf(conv, spec, r), Trimmed(r.digits, Precision(conv, spec));
    FiniteBody(conv, spec, r, s, IsUpper(conv));
    if s.fixed {
      PositionalIs(r, p, s.prec);
    }
  }

  lemma PositionalIs(r: FtoaResult, p: nat, prec: nat)
    requires p <= 7 && prec == if p > r.exp then p - r.exp else 0
    ensures |GeneralPlaces(r, p)| == Top(r.exp) + 1 + prec
    ensures FixedBody(r, p + 1, prec) == Pointed(GeneralPlaces(r, p), Top(r.exp) + 1)
  {
    SignificantPlaces(r, p, prec);
    Unrounded(r, p + 1, prec, GeneralPlaces(r, p));
  }

  lemma Unrounded(r: FtoaResult, used: nat, prec: nat, p: string)
    requires used <= 8 && r.exp + prec + 1 != 0 && p == Places(r, used, prec)
    ensures FixedBody(r, used, prec) == Pointed(p, Top(r.exp) + 1)
  {
    FixedBodyIs(r, used, prec);
  }
}
