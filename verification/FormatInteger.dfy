/** What `_vprintf` prints for d, i, u, o, x, X and p. */
module FormatInteger {
  import opened Bits
  import opened FormatSpec
  import opened Options

  // ---- arguments -----------------------------------------------------------------

  predicate IsInteger(conv: char) {
    IsSigned(conv) || conv == 'u' || IsPrefixed(conv)
  }

  /** Conversions that `#` can give a prefix. */
  predicate IsPrefixed(conv: char) {
    conv == 'o' || conv == 'x' || conv == 'X' || conv == 'p'
  }

  predicate IsSigned(conv: char) {
    conv == 'd' || conv == 'i'
  }

  /** The argument as the conversion reads it: `int` and `unsigned` have 16 bits,
      with `l` they have 32. */
  function Argument(conv: char, long: bool, arg: int): int {
    if IsSigned(conv) then (if long then ToLong(arg) else ToShort(arg))
    else if long then arg % UINT32
    else arg % UINT16
  }

  /** Negating the smallest `long` wraps, and the conversion to `unsigned long`
      still yields its magnitude. */
  lemma NegatedMagnitude(x: int)
    requires -0x8000_0000 <= x < 0x8000_0000
    ensures x < 0 ==> ToLong(-x) % UINT32 == Magnitude(x)
    ensures x >= 0 ==> x % UINT32 == Magnitude(x)
  {
  }

  lemma ArgumentRange(conv: char, long: bool, arg: int)
    ensures var x := Argument(conv, long, arg);
            Magnitude(x) < UINT32 && (x < 0 ==> IsSigned(conv))
  {
  }

  function Base(conv: char): nat {
    if conv == 'o' then 8 else if IsPrefixed(conv) then 16 else 10
  }

  // ---- digits --------------------------------------------------------------------

  function DigitChar(d: nat, upper: bool): char
    requires d < 16
  {
    if d < 10 then ('0' as int + d) as char
    else if upper then ('A' as int + d - 10) as char else ('a' as int + d - 10) as char
  }

  /** `__ultoa_invert`: the digits, least significant first, at least one. */
  function Digits(n: nat, base: nat, upper: bool): (r: string)
    requires 2 <= base <= 16
    ensures |r| >= 1
    decreases n
  {
    if n < base then [DigitChar(n, upper)]
    else
      DivisionDecreases(n, base);
      [DigitChar(n % base, upper)] + Digits(n / base, base, upper)
  }

  lemma DivisionDecreases(n: nat, base: nat)
    requires 2 <= base <= n
    ensures 1 <= n / base < n && n / base * base + n % base == n
  {
    QuotientBound(n, base, 1);
    QuotientBound(n, base, n);
    assert n * base == n + n * (base - 1);
    MultipleBound(n, base - 1);
  }

  function Reverse(s: string): (r: string)
    ensures |r| == |s|
  {
    if s == "" then "" else Reverse(s[1..]) + [s[0]]
  }

  lemma {:induction false} ReverseLast(s: string)
    requires s != ""
    ensures Reverse(s) == [s[|s| - 1]] + Reverse(s[..|s| - 1])
  {
    if |s| == 1 {
      assert s[1..] == "" && s[..0] == "";
    } else {
      ReverseLast(s[1..]);
      assert s[1..][..|s| - 2] == s[..|s| - 1][1..];
    }
  }

  function Times(c: char, n: int): (r: string)
    ensures |r| == if n < 0 then 0 else n
    ensures forall x <- r :: x == c
    decreases n
  {
    if n <= 0 then "" else [c] + Times(c, n - 1)
  }

  /** `text` is `bare` and `gap` characters of padding: spaces behind it on the left
      side, zeros behind its first `n` characters, or spaces in front of it. */
  predicate Fills(text: string, bare: string, left: bool, zeros: bool, n: nat, gap: nat) {
    && |text| == |bare| + gap
    && if left then text[..|bare|] == bare && forall i :: |bare| <= i < |text| ==> text[i] == ' '
       else if zeros then
         && n <= |bare| && text[..n] == bare[..n] && text[n + gap..] == bare[n..]
         && forall i :: n <= i < n + gap ==> text[i] == '0'
       else text[gap..] == bare && forall i :: 0 <= i < gap ==> text[i] == ' '
  }

  lemma Filled(text: string, bare: string, left: bool, zeros: bool, n: nat, gap: nat)
    requires left ==> text == bare + Times(' ', gap)
    requires !left && zeros ==> n <= |bare| && text == bare[..n] + Times('0', gap) + bare[n..]
    requires !left && !zeros ==> text == Times(' ', gap) + bare
    ensures Fills(text, bare, left, zeros, n, gap)
  {
    if left {
      FilledWith(bare, "", ' ', gap);
      assert bare + Times(' ', gap) + "" == bare + Times(' ', gap);
    } else if zeros {
      FilledWith(bare[..n], bare[n..], '0', gap);
    } else {
      FilledWith("", bare, ' ', gap);
      assert "" + Times(' ', gap) + bare == Times(' ', gap) + bare;
    }
  }

  lemma FilledWith(a: string, b: string, c: char, gap: nat)
    ensures var text := a + Times(c, gap) + b;
            && |text| == |a| + gap + |b| && text[..|a|] == a && text[|a| + gap..] == b
            && forall i :: |a| <= i < |a| + gap ==> text[i] == c
  {
    var text := a + Times(c, gap) + b;
    forall i | |a| <= i < |a| + gap
      ensures text[i] == c
    {
      assert text[i] == Times(c, gap)[i - |a|] && Times(c, gap)[i - |a|] in Times(c, gap);
    }
  }

  lemma {:induction false} TimesAppends(c: char, n: nat)
    ensures Times(c, n) + [c] == Times(c, n + 1)
  {
    if n > 0 { TimesAppends(c, n - 1); }
  }

  lemma {:induction false} DigitsLength(n: nat, base: nat, upper: bool, k: nat)
    requires 8 <= base <= 16 && n < Power(8, k) && k >= 1
    ensures |Digits(n, base, upper)| <= k
    decreases k
  {
    assert Power(8, 1) == 8 * Power(8, 0) == 8;
    if n >= base {
      DivisionDecreases(n, base);
      QuotientBelow(n, base, Power(8, k - 1));
      DigitsLength(n / base, base, upper, k - 1);
    }
  }

  function Power(b: nat, k: nat): nat {
    if k == 0 then 1 else b * Power(b, k - 1)
  }

  lemma QuotientBelow(n: nat, base: nat, p: nat)
    requires base >= 8 && n < 8 * p
    ensures n / base < p
  {
    QuotientBound(n, base, p);
    assert p * base == 8 * p + p * (base - 8) && p * (base - 8) >= 0;
  }

  /** Any 32-bit number has at most 11 digits in the bases of the conversions, so
      the digits fit `buf`. */
  lemma DigitsFitBuffer(n: nat, base: nat, upper: bool)
    requires 8 <= base <= 16 && n < UINT32
    ensures |Digits(n, base, upper)| <= 11
  {
    assert Power(8, 4) == 4096;
    assert Power(8, 8) == 4096 * 4096;
    assert Power(8, 11) == 512 * Power(8, 8);
    DigitsLength(n, base, upper, 11);
  }

  /** The most significant digit is `0` only for zero. */
  lemma {:induction false} LeadingDigit(n: nat, base: nat, upper: bool)
    requires 2 <= base <= 16
    ensures var d := Digits(n, base, upper); d[|d| - 1] == '0' <==> n == 0
    decreases n
  {
    if n >= base {
      DivisionDecreases(n, base);
      LeadingDigit(n / base, base, upper);
    }
  }

  // ---- the text ----------------------------------------------------------------

  /** The characters before the digits: a sign or the prefix of `#`. */
  function Prefix(conv: char, spec: Spec, x: int): string {
    var f := spec.flags;
    if IsPrefixed(conv) then
      if !f.alt && conv != 'p' then ""
      else if x == 0 then ""
      else if conv == 'o' then
        if f.prec && |Digits(Magnitude(x), 8, false)| < spec.prec then "" else "0"
      else if conv == 'X' then "0X" else "0x"
    else if x < 0 then "-"
    else if f.plus then "+"
    else if f.space then " "
    else ""
  }

  lemma PrefixIsShort(conv: char, spec: Spec, x: int)
    ensures |Prefix(conv, spec, x)| <= 2
  {
  }

  /** How the code encodes the conversion in `flags` before it settles the
      length: FL_NEGATIVE is the `long` bit, FL_ALTHEX the `space` bit and
      FL_ALTUPP the `plus` bit. */
  function FlagsFor(conv: char, f: Flags, x: int): Flags {
    if IsSigned(conv) then f.(long := x < 0, alt := false)
    else if conv == 'u' then f.(long := false, alt := false)
    else
      var alt := f.alt || conv == 'p';
      f.(long := false, plus := conv == 'X' && alt, space := conv != 'o' && alt, alt := alt)
  }

  /** The prefix that the settled flags make the code write. */
  function PrefixText(f: Flags): string {
    if f.alt then (if f.space then (if f.plus then "0X" else "0x") else "0")
    else if f.long then "-"
    else if f.plus then "+"
    else if f.space then " "
    else ""
  }

  /** The flags after the code dropped prefix bits that do not apply: octal `#`
      when a precision already supplies a zero, any `#` on the number zero. */
  function Settled(f: Flags, prec: Byte, digits: nat, isZero: bool): Flags {
    var g := f.(zfill := f.zfill && !f.prec, alt := f.alt && (f.space || !f.prec || digits >= prec));
    if g.alt && isZero then g.(alt := false, space := false, plus := false) else g
  }

  /** The settled flags write the prefix of the conversion and choose its layout. */
  lemma SettledMeans(conv: char, spec: Spec, x: int, digits: nat)
    requires IsInteger(conv) && (x < 0 ==> IsSigned(conv))
    requires conv == 'o' ==> digits == |Digits(Magnitude(x), 8, false)|
    ensures var f := Settled(FlagsFor(conv, spec.flags, x), spec.prec, digits, x == 0);
            && PrefixText(f) == Prefix(conv, spec, x)
            && f.lpad == spec.flags.lpad && f.prec == spec.flags.prec
            && f.zfill == (spec.flags.zfill && !spec.flags.prec)
    ensures var f := FlagsFor(conv, spec.flags, x); !(f.alt && f.long) && f.prec == spec.flags.prec
  {
  }

  function Numeral(conv: char, x: int): string {
    Reverse(Digits(Magnitude(x), Base(conv), conv == 'X'))
  }

  /** Zeros that a precision asks for. */
  function PrecisionZeros(spec: Spec, digits: nat): nat {
    if spec.flags.prec && spec.prec > digits then spec.prec - digits else 0
  }

  /** The length without padding to the width. */
  function NaturalLength(conv: char, spec: Spec, x: int): nat {
    |Prefix(conv, spec, x)| + PrecisionZeros(spec, |Numeral(conv, x)|) + |Numeral(conv, x)|
  }

  /** The padding the code inserts: it keeps the natural length in 8 bits. */
  function Gap(spec: Spec, natural: nat): nat {
    var len := natural % 256;
    if len < spec.width then spec.width - len else 0
  }

  function Assemble(spec: Spec, prefix: string, digits: string): string {
    var zeros := PrecisionZeros(spec, |digits|);
    Layout(spec.flags, Gap(spec, |prefix| + zeros + |digits|), prefix, zeros, digits)
  }

  /** The text for the argument value `x`. */
  function IntegerText(conv: char, spec: Spec, x: int): string {
    Assemble(spec, Prefix(conv, spec, x), Numeral(conv, x))
  }

  /** `0` puts the padding between prefix and digits, unless `-` or a precision
      is given. */
  predicate Infix(f: Flags) {
    !f.lpad && f.zfill && !f.prec
  }

  /** Padding goes after the number with `-`, between prefix and digits with `0`,
      and before it otherwise. */
  function Layout(f: Flags, gap: nat, prefix: string, zeros: nat, digits: string): string {
    Parts(if f.lpad || Infix(f) then 0 else gap, prefix,
          if Infix(f) then gap else zeros, digits, if f.lpad then gap else 0)
  }

  function Parts(before: nat, prefix: string, zeros: nat, digits: string, after: nat): (r: string)
    ensures |r| == before + |prefix| + zeros + |digits| + after
  {
    Times(' ', before) + (prefix + Run(zeros, digits, after))
  }

  lemma PartsAppended(out: string, before: nat, prefix: string, zeros: nat, digits: string, after: nat)
    ensures out + Times(' ', before) + prefix + Times('0', zeros) + digits + Times(' ', after)
         == out + Parts(before, prefix, zeros, digits, after)
  {
  }

  function Run(zeros: nat, digits: string, after: nat): (r: string)
    ensures |r| == zeros + |digits| + after
  {
    Times('0', zeros) + digits + Times(' ', after)
  }

  /** The layout in terms of the settled flags and the length counted in 8 bits. */
  lemma AssembledAs(f: Flags, spec: Spec, prefix: string, digits: string, length: Byte)
    requires f.lpad == spec.flags.lpad && f.prec == spec.flags.prec
    requires f.zfill == (spec.flags.zfill && !spec.flags.prec)
    requires length == (|prefix| + PrecisionZeros(spec, |digits|) + |digits|) % 256
    ensures var gap, zeros := Gap(spec, length), PrecisionZeros(spec, |digits|);
            Assemble(spec, prefix, digits)
            == Parts(if f.lpad || Infix(f) then 0 else gap, prefix,
                     if Infix(f) then gap else zeros, digits, if f.lpad then gap else 0)
  {
    assert length % 256 == length;
    assert Gap(spec, length) == Gap(spec, |prefix| + PrecisionZeros(spec, |digits|) + |digits|);
    assert Infix(f) == Infix(spec.flags);
  }

  /** An integer conversion has max(width, natural length) characters exactly when
      the natural length fits its 8-bit counter or leaves nothing to pad even
      after wrapping.  A precision of at most 253 always fits. */
  lemma IntegerLength(conv: char, spec: Spec, arg: int)
    requires IsInteger(conv)
    ensures var x := Argument(conv, spec.flags.long, arg);
            var n := NaturalLength(conv, spec, x);
            && (|IntegerText(conv, spec, x)| == (if n < spec.width then spec.width else n) <==>
                n < 256 || spec.width <= n - 256)
            && (!spec.flags.prec || spec.prec <= 253 ==> n < 256)
  {
    var x := Argument(conv, spec.flags.long, arg);
    ArgumentRange(conv, spec.flags.long, arg);
    DigitsFitBuffer(Magnitude(x), Base(conv), conv == 'X');
    PrefixIsShort(conv, spec, x);
    AssembledLength(spec, Prefix(conv, spec, x), Numeral(conv, x));
    GapFills(spec, NaturalLength(conv, spec, x));
  }

  /** The length wraps for `%#255.255x`: 1 has 257 characters, and the code pads
      them to 511 instead of leaving them alone. */
  lemma WidthMissed(d: Directive)
    requires d == Directive(false, false, false, false, true, 255, Some(255), Plain, 'x')
    ensures Parse(Render(d), EMPTY) == Conversion('x', SpecOf(d), "")
    ensures NaturalLength('x', SpecOf(d), 1) == 257
    ensures |IntegerText('x', SpecOf(d), 1)| == 511
  {
    ParseRender(d, "");
    assert Render(d) + "" == Render(d);
    LengthOfOne(SpecOf(d));
  }

  lemma LengthOfOne(spec: Spec)
    requires spec.flags.alt && spec.flags.prec && spec.width == spec.prec == 255
    ensures NaturalLength('x', spec, 1) == 257 && |IntegerText('x', spec, 1)| == 511
  {
    OneHasOneDigit();
    AssembledLength(spec, Prefix('x', spec, 1), Numeral('x', 1));
  }

  lemma OneHasOneDigit()
    ensures |Numeral('x', 1)| == 1
  {
    ReverseStep(1, 16, false);
  }

  // ---- where the code differs from the C standard -------------------------------------------

  /** A conversion without width, flags for padding or precision zeros is its prefix
      and its digits. */
  lemma Unpadded(spec: Spec, prefix: string, digits: string)
    requires spec.width == 0 && (!spec.flags.prec || spec.prec <= |digits|) && !spec.flags.lpad
    ensures Assemble(spec, prefix, digits) == prefix + digits
  {
    assert PrecisionZeros(spec, |digits|) == 0 && Gap(spec, |prefix| + |digits|) == 0;
    PartsJoined(0, prefix, 0, digits, 0);
    assert "" + (prefix + ("" + digits + "")) == prefix + digits;
  }

  /** `%.0d` prints 0 as `0`; the standard asks for no characters. */
  lemma ZeroWithoutPrecision(d: Directive)
    requires d == Directive(false, false, false, false, false, 0, Some(0), Plain, 'd')
    ensures Parse(Render(d), EMPTY) == Conversion('d', SpecOf(d), "")
    ensures IntegerText('d', SpecOf(d), 0) == "0"
  {
    ParseRender(d, "");
    assert Render(d) + "" == Render(d);
    ReverseStep(0, 10, false);
    Unpadded(SpecOf(d), "", Numeral('d', 0));
    assert "" + "0" == "0";
  }

  /** `%+u` prints a sign in front of every number; the standard has none there. */
  lemma SignOnUnsigned(d: Directive, x: nat)
    requires d == Directive(false, true, false, false, false, 0, None, Plain, 'u')
    ensures Parse(Render(d), EMPTY) == Conversion('u', SpecOf(d), "")
    ensures IntegerText('u', SpecOf(d), x) == "+" + Numeral('u', x)
  {
    ParseRender(d, "");
    assert Render(d) + "" == Render(d);
    Unpadded(SpecOf(d), "+", Numeral('u', x));
  }

  lemma AssembledLength(spec: Spec, prefix: string, digits: string)
    requires |prefix| <= 2 && |digits| <= 11
    ensures var zeros := PrecisionZeros(spec, |digits|);
            var n := |prefix| + zeros + |digits|;
            && |Assemble(spec, prefix, digits)| == n + Gap(spec, n)
            && n <= 257 && (!spec.flags.prec || spec.prec <= 253 ==> n < 256)
  {
  }

  lemma GapFills(spec: Spec, n: nat)
    requires n < 512
    ensures n + Gap(spec, n) == (if n < spec.width then spec.width else n) <==>
            n < 256 || spec.width <= n - 256
  {
  }

  // ---- where the padding is ------------------------------------------------------------

  /** The same conversion without a width. */
  function Bare(conv: char, spec: Spec, x: int): string {
    IntegerText(conv, spec.(width := 0), x)
  }

  /** Padding surrounds or enters the bare text and changes nothing else in it:
      spaces behind it with `-`, zeros after its sign or prefix with `0`, spaces
      in front of it otherwise. */
  lemma PaddingOfBare(conv: char, spec: Spec, x: int)
    ensures var text, bare, gap, f := IntegerText(conv, spec, x), Bare(conv, spec, x),
                                      Gap(spec, NaturalLength(conv, spec, x)), spec.flags;
            var n := |Prefix(conv, spec, x)|;
            && n <= |bare| && bare[..n] == Prefix(conv, spec, x)
            && (f.lpad ==> text == bare + Times(' ', gap))
            && (Infix(f) ==> text == bare[..n] + Times('0', gap) + bare[n..])
            && (!f.lpad && !Infix(f) ==> text == Times(' ', gap) + bare)
  {
    var prefix, digits := Prefix(conv, spec, x), Numeral(conv, x);
    var zeros := PrecisionZeros(spec, |digits|);
    BareIs(conv, spec, x);
    PartsOfBare(prefix, zeros, digits, Gap(spec, |prefix| + zeros + |digits|));
  }

  lemma BareIs(conv: char, spec: Spec, x: int)
    ensures Bare(conv, spec, x)
         == Parts(0, Prefix(conv, spec, x), PrecisionZeros(spec, |Numeral(conv, x)|), Numeral(conv, x), 0)
  {
    assert Prefix(conv, spec.(width := 0), x) == Prefix(conv, spec, x);
  }

  lemma PartsOfBare(prefix: string, zeros: nat, digits: string, gap: nat)
    ensures var bare, n := Parts(0, prefix, zeros, digits, 0), |prefix|;
            && bare[..n] == prefix && bare[n..] == Times('0', zeros) + digits
            && Parts(0, prefix, zeros, digits, gap) == bare + Times(' ', gap)
            && Parts(gap, prefix, zeros, digits, 0) == Times(' ', gap) + bare
            && (zeros == 0 ==> Parts(0, prefix, gap, digits, 0) == prefix + Times('0', gap) + bare[n..])
  {
    PartsJoined(0, prefix, zeros, digits, 0);
    PartsJoined(0, prefix, zeros, digits, gap);
    PartsJoined(gap, prefix, zeros, digits, 0);
    PartsJoined(0, prefix, gap, digits, 0);
    var body := Times('0', zeros) + digits;
    Around("", prefix, body, "");
    Around("", prefix, body, Times(' ', gap));
    Around(Times(' ', gap), prefix, body, "");
    if zeros == 0 {
      assert body == digits;
      Around("", prefix, Times('0', gap) + digits, "");
    }
  }

  lemma PartsJoined(before: nat, prefix: string, zeros: nat, digits: string, after: nat)
    ensures Parts(before, prefix, zeros, digits, after)
         == Times(' ', before) + (prefix + (Times('0', zeros) + digits + Times(' ', after)))
    ensures Times(' ', 0) == "" == Times('0', 0)
  {
  }

  lemma Around(before: string, prefix: string, body: string, after: string)
    ensures before + (prefix + (body + after)) == before + (prefix + body) + after
    ensures "" + (prefix + body) == prefix + body == prefix + body + ""
    ensures before + (prefix + (body + "")) == before + (prefix + body)
    ensures (prefix + body)[..|prefix|] == prefix && (prefix + body)[|prefix|..] == body
  {
  }

  /** Behind sign and prefix the bare text is digits of the base only, at least
      one of them and at least as many as a given precision. */
  lemma DigitsOfBare(conv: char, spec: Spec, x: int)
    requires IsInteger(conv)
    ensures var body := Bare(conv, spec, x)[|Prefix(conv, spec, x)|..];
            AllDigits(body, Base(conv)) && |body| >= 1 && (spec.flags.prec ==> |body| >= spec.prec)
  {
    var prefix, digits := Prefix(conv, spec, x), Numeral(conv, x);
    var zeros := PrecisionZeros(spec, |digits|);
    BareIs(conv, spec, x);
    PartsOfBare(prefix, zeros, digits, 0);
    ReversedAreDigits(Magnitude(x), Base(conv), conv == 'X');
  }

  // ---- reading the text back ----------------------------------------------------

  /** The value of a digit character; 99 for any other character. */
  function DigitValue(c: char): nat {
    if '0' <= c <= '9' then c as int - '0' as int
    else if 'a' <= c <= 'f' then c as int - 'a' as int + 10
    else if 'A' <= c <= 'F' then c as int - 'A' as int + 10
    else 99
  }

  /** The number written by the leading digits of `s`, continuing from `acc`. */
  function ReadDigits(s: string, base: nat, acc: nat): nat
    decreases |s|
  {
    if s == "" || DigitValue(s[0]) >= base then acc
    else ReadDigits(s[1..], base, acc * base + DigitValue(s[0]))
  }

  function SkipSpaces(s: string): string
    decreases |s|
  {
    if s != "" && s[0] == ' ' then SkipSpaces(s[1..]) else s
  }

  function SkipPrefix(s: string, base: nat): string {
    if base == 16 && |s| >= 2 && s[0] == '0' && (s[1] == 'x' || s[1] == 'X') then s[2..] else s
  }

  /** A reader in the manner of `strtol`, independent of the printing code. */
  function ReadNumber(s: string, base: nat): int {
    ReadSigned(SkipSpaces(s), base)
  }

  function ReadSigned(s: string, base: nat): int {
    if s != "" && s[0] == '-' then 0 - ReadDigits(SkipPrefix(s[1..], base), base, 0)
    else if s != "" && s[0] == '+' then ReadDigits(SkipPrefix(s[1..], base), base, 0)
    else ReadDigits(SkipPrefix(s, base), base, 0)
  }

  predicate AllDigits(s: string, base: nat) {
    forall c <- s :: DigitValue(c) < base
  }

  lemma {:induction false} ReadAppends(s: string, c: char, tail: string, base: nat, acc: nat)
    requires AllDigits(s, base) && DigitValue(c) < base
    ensures ReadDigits(s + [c] + tail, base, acc)
         == ReadDigits(tail, base, ReadDigits(s, base, acc) * base + DigitValue(c))
    decreases |s|
  {
    if s == "" {
      assert "" + [c] + tail == [c] + tail;
      assert ([c] + tail)[1..] == tail;
    } else {
      assert (s + [c] + tail)[1..] == s[1..] + [c] + tail;
      ReadAppends(s[1..], c, tail, base, acc * base + DigitValue(s[0]));
    }
  }

  lemma {:induction false} ReadZeros(n: nat, tail: string, base: nat)
    requires base > 0
    ensures ReadDigits(Times('0', n) + tail, base, 0) == ReadDigits(tail, base, 0)
  {
    if n == 0 {
      assert "" + tail == tail;
    } else {
      assert (Times('0', n) + tail)[1..] == Times('0', n - 1) + tail;
      assert DigitValue('0') == 0 && 0 * base + 0 == 0;
      ReadZeros(n - 1, tail, base);
    }
  }

  lemma DigitCharValue(d: nat, upper: bool)
    requires d < 16
    ensures DigitValue(DigitChar(d, upper)) == d
  {
  }

  lemma {:induction false} ReversedAreDigits(n: nat, base: nat, upper: bool)
    requires 2 <= base <= 16
    ensures AllDigits(Reverse(Digits(n, base, upper)), base)
    decreases n
  {
    ReverseStep(n, base, upper);
    if n < base {
      DigitCharValue(n, upper);
    } else {
      DivisionDecreases(n, base);
      DigitCharValue(n % base, upper);
      ReversedAreDigits(n / base, base, upper);
    }
  }

  lemma ReverseStep(n: nat, base: nat, upper: bool)
    requires 2 <= base <= 16
    ensures n < base ==> Reverse(Digits(n, base, upper)) == [DigitChar(n, upper)]
    ensures n >= base ==>
              Reverse(Digits(n, base, upper))
              == Reverse(Digits(n / base, base, upper)) + [DigitChar(n % base, upper)]
  {
    var ds := Digits(n, base, upper);
    if n < base {
      assert ds[1..] == "";
    } else {
      DivisionDecreases(n, base);
      assert ds[1..] == Digits(n / base, base, upper);
    }
  }

  /** Reading the reversed digits gives the number. */
  lemma {:induction false} ReadReversed(n: nat, base: nat, upper: bool, tail: string)
    requires 2 <= base <= 16
    ensures ReadDigits(Reverse(Digits(n, base, upper)) + tail, base, 0) == ReadDigits(tail, base, n)
    decreases n
  {
    ReverseStep(n, base, upper);
    if n < base {
      DigitCharValue(n, upper);
      var c := DigitChar(n, upper);
      ReadAppends("", c, tail, base, 0);
      assert "" + [c] + tail == [c] + tail;
    } else {
      DivisionDecreases(n, base);
      var c, front := DigitChar(n % base, upper), Reverse(Digits(n / base, base, upper));
      DigitCharValue(n % base, upper);
      ReversedAreDigits(n / base, base, upper);
      ReadReversed(n / base, base, upper, "");
      assert front + "" == front;
      ReadOneMore(front, c, tail, base, n / base, n % base, n);
    }
  }

  lemma ReadOneMore(front: string, c: char, tail: string, base: nat, q: nat, r: nat, n: nat)
    requires AllDigits(front, base) && DigitValue(c) == r < base
    requires ReadDigits(front, base, 0) == q && q * base + r == n
    ensures ReadDigits(front + [c] + tail, base, 0) == ReadDigits(tail, base, n)
  {
    ReadAppends(front, c, tail, base, 0);
  }

  lemma {:induction false} SkipTimes(n: nat, tail: string)
    ensures SkipSpaces(Times(' ', n) + tail) == SkipSpaces(tail)
  {
    if n == 0 {
      assert "" + tail == tail;
    } else {
      assert (Times(' ', n) + tail)[1..] == Times(' ', n - 1) + tail;
      SkipTimes(n - 1, tail);
    }
  }

  /** `digits` is a numeral for `n`. */
  ghost predicate Denotes(digits: string, n: nat, base: nat) {
    && digits != "" && AllDigits(digits, base)
    && forall tail :: ReadDigits(digits + tail, base, 0) == ReadDigits(tail, base, n)
  }

  lemma NumeralDenotes(n: nat, base: nat, upper: bool)
    requires 2 <= base <= 16
    ensures Denotes(Reverse(Digits(n, base, upper)), n, base)
  {
    ReversedAreDigits(n, base, upper);
    forall tail
      ensures ReadDigits(Reverse(Digits(n, base, upper)) + tail, base, 0) == ReadDigits(tail, base, n)
    {
      ReadReversed(n, base, upper, tail);
    }
  }

  /** Zeros, then the numeral, then padding, read as the number. */
  lemma ReadBody(digits: string, n: nat, base: nat, zeros: nat, spaces: nat)
    requires 2 <= base <= 16 && Denotes(digits, n, base)
    ensures var body := Run(zeros, digits, spaces);
            && ReadDigits(body, base, 0) == n
            && body != "" && DigitValue(body[0]) < base
            && SkipPrefix(body, base) == body
  {
    var pad := Times(' ', spaces);
    assert Run(zeros, digits, spaces) == Times('0', zeros) + (digits + pad);
    ReadZeros(zeros, digits + pad, base);
    assert spaces > 0 ==> pad[0] == ' ';
    BodyHasNoPrefix(zeros, digits, spaces, base);
  }

  lemma BodyHasNoPrefix(zeros: nat, digits: string, spaces: nat, base: nat)
    requires digits != "" && AllDigits(digits, base) && 2 <= base <= 16
    ensures var body := Run(zeros, digits, spaces);
            body != "" && DigitValue(body[0]) < base && SkipPrefix(body, base) == body
  {
    var z, pad := Times('0', zeros), Times(' ', spaces);
    var body := z + digits + pad;
    assert digits[0] in digits;
    assert body[0] == if zeros > 0 then z[0] else digits[0];
    if |body| >= 2 {
      var c := body[1];
      assert c in z || c in digits || c in pad;
    }
  }

  predicate IsPrefix(prefix: string, base: nat) {
    && (prefix == "" || prefix == "-" || prefix == "+" || prefix == " " || prefix == "0"
        || prefix == "0x" || prefix == "0X")
    && (prefix == "0" ==> base == 8)
    && (prefix == "0x" || prefix == "0X" ==> base == 16)
  }

  lemma PartsReadBack(before: nat, prefix: string, zeros: nat, n: nat, base: nat, upper: bool, after: nat)
    requires 2 <= base <= 16 && IsPrefix(prefix, base)
    ensures ReadNumber(Parts(before, prefix, zeros, Reverse(Digits(n, base, upper)), after), base)
         == if prefix == "-" then 0 - n else n
  {
    var digits := Reverse(Digits(n, base, upper));
    NumeralDenotes(n, base, upper);
    ReadBody(digits, n, base, zeros, after);
    ReadPrefixed(prefix, Run(zeros, digits, after), base, n);
    SkipTimes(before, prefix + Run(zeros, digits, after));
  }

  lemma LayoutReadBack(f: Flags, gap: nat, prefix: string, zeros: nat, n: nat, base: nat, upper: bool)
    requires 2 <= base <= 16 && IsPrefix(prefix, base)
    ensures ReadNumber(Layout(f, gap, prefix, zeros, Reverse(Digits(n, base, upper))), base)
         == if prefix == "-" then 0 - n else n
  {
    var before := if f.lpad || Infix(f) then 0 else gap;
    var inner := if Infix(f) then gap else zeros;
    var after := if f.lpad then gap else 0;
    PartsReadBack(before, prefix, inner, n, base, upper, after);
  }

  lemma AssembledReadBack(spec: Spec, prefix: string, n: nat, base: nat, upper: bool)
    requires 2 <= base <= 16 && IsPrefix(prefix, base)
    ensures ReadNumber(Assemble(spec, prefix, Reverse(Digits(n, base, upper))), base)
         == if prefix == "-" then 0 - n else n
  {
    var digits := Reverse(Digits(n, base, upper));
    var zeros := PrecisionZeros(spec, |digits|);
    LayoutReadBack(spec.flags, Gap(spec, |prefix| + zeros + |digits|), prefix, zeros, n, base, upper);
    AssembleIs(spec, prefix, digits);
  }

  lemma AssembleIs(spec: Spec, prefix: string, digits: string)
    ensures var zeros := PrecisionZeros(spec, |digits|);
            Assemble(spec, prefix, digits)
            == Layout(spec.flags, Gap(spec, |prefix| + zeros + |digits|), prefix, zeros, digits)
  {
  }

  /** Whatever the flags, width and precision, reading the printed text back in
      the base of the conversion yields the argument: its sign as well for d and
      i, and the unsigned value for the other conversions. */
  lemma IntegerReadBack(conv: char, spec: Spec, arg: int)
    requires IsInteger(conv)
    ensures var x := Argument(conv, spec.flags.long, arg);
            ReadNumber(IntegerText(conv, spec, x), Base(conv)) == x
  {
    var x := Argument(conv, spec.flags.long, arg);
    ArgumentRange(conv, spec.flags.long, arg);
    PrefixForms(conv, spec, x);
    AssembledReadBack(spec, Prefix(conv, spec, x), Magnitude(x), Base(conv), conv == 'X');
  }

  lemma PrefixForms(conv: char, spec: Spec, x: int)
    requires IsInteger(conv) && (x < 0 ==> IsSigned(conv))
    ensures var prefix := Prefix(conv, spec, x);
            IsPrefix(prefix, Base(conv)) && (prefix == "-" <==> x < 0)
  {
  }

  /** A prefix the printing code can produce, in front of digits. */
  lemma ReadPrefixed(prefix: string, body: string, base: nat, n: nat)
    requires 2 <= base <= 16 && body != "" && DigitValue(body[0]) < base
    requires SkipPrefix(body, base) == body && ReadDigits(body, base, 0) == n
    requires IsPrefix(prefix, base)
    ensures ReadNumber(prefix + body, base) == if prefix == "-" then 0 - n else n
  {
    var t := prefix + body;
    if prefix == "" {
      assert t == body;
    } else if |prefix| == 1 {
      assert t[0] == prefix[0] && t[1..] == body;
      if prefix == "0" {
        assert ReadDigits(t, 8, 0) == ReadDigits(body, 8, 0);
      } else if prefix == " " {
        assert SkipSpaces(t) == SkipSpaces(body) == body;
      }
    } else {
      assert t[0] == '0' && (t[1] == 'x' || t[1] == 'X') && t[2..] == body;
    }
  }
}
