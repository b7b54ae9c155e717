/** What the fields of a format look like, character by character. */
module FormatFields {
  import opened Bits
  import opened Options
  import opened FormatSpec
  import opened FormatInteger
  import opened FormatFloat
  import opened Printf

  // ---- integers ---------------------------------------------------------------------------

  predicate IsIntegerConversion(conv: char) {
    conv == 'd' || conv == 'i' || conv == 'u' || conv == 'o' || conv == 'x' || conv == 'X' || conv == 'p'
  }

  /** The value printed: the argument cut to 16 bits, or to 32 with `l`, signed for d
      and i only. */
  lemma ArgumentMeans(conv: char, long: bool, arg: int)
    requires IsIntegerConversion(conv)
    ensures var x := Argument(conv, long, arg);
            && (!long ==> (x - arg) % 0x1_0000 == 0)
            && (long ==> (x - arg) % 0x1_0000_0000 == 0)
            && (if conv == 'd' || conv == 'i' then
                  if long then -0x8000_0000 <= x < 0x8000_0000 else -0x8000 <= x < 0x8000
                else 0 <= x < if long then 0x1_0000_0000 else 0x1_0000)
  {
    if long {
      Congruent(arg, 0x1_0000_0000);
    } else {
      Congruent(arg, 0x1_0000);
    }
  }

  lemma Congruent(arg: int, n: nat)
    requires n > 0
    ensures (arg % n - arg) % n == 0 && (arg % n - n - arg) % n == 0
  {
    ModUnique(arg % n - arg, n, 0 - arg / n, 0);
    ModUnique(arg % n - n - arg, n, -1 - arg / n, 0);
  }

  /** Reading any integer field back in its base gives the argument, modulo 2^16 or
      2^32, in the range of the conversion. */
  lemma IntegerReads(conv: char, spec: Spec, arg: int, base: nat)
    requires IsIntegerConversion(conv)
    requires base == if conv == 'o' then 8 else if conv == 'x' || conv == 'X' || conv == 'p' then 16 else 10
    ensures var v := ReadNumber(IntegerText(conv, spec, Argument(conv, spec.flags.long, arg)), base);
            && (!spec.flags.long ==> (v - arg) % 0x1_0000 == 0)
            && (spec.flags.long ==> (v - arg) % 0x1_0000_0000 == 0)
            && (if conv == 'd' || conv == 'i' then
                  if spec.flags.long then -0x8000_0000 <= v < 0x8000_0000 else -0x8000 <= v < 0x8000
                else 0 <= v < if spec.flags.long then 0x1_0000_0000 else 0x1_0000)
  {
    IntegerReadBack(conv, spec, arg);
    ArgumentMeans(conv, spec.flags.long, arg);
  }

  /** The text without a width: a prefix and digits.  The prefix is the sign that d, i and
      u print, or the mark of the base that `#` and p ask for.  The digits are those of
      the base in the case of the conversion; they start with a zero only for the number
      0 and to fill up the precision. */
  lemma IntegerShape(conv: char, spec: Spec, x: int, base: nat) returns (prefix: string, body: string)
    requires IsIntegerConversion(conv) && (x < 0 ==> conv == 'd' || conv == 'i')
    requires base == if conv == 'o' then 8 else if conv == 'x' || conv == 'X' || conv == 'p' then 16 else 10
    ensures IntegerText(conv, spec.(width := 0), x) == prefix + body
    ensures conv == 'd' || conv == 'i' || conv == 'u' ==>
              prefix == if x < 0 then "-" else if spec.flags.plus then "+" else if spec.flags.space then " " else ""
    ensures conv == 'x' || conv == 'p' ==>
              prefix == if x != 0 && (spec.flags.alt || conv == 'p') then "0x" else ""
    ensures conv == 'X' ==> prefix == if x != 0 && spec.flags.alt then "0X" else ""
    ensures body != "" && AllDigits(body, base) && ReadDigits(body, base, 0) == if x < 0 then -x else x
    ensures conv == 'o' ==> prefix == if x != 0 && spec.flags.alt && body[0] != '0' then "0" else ""
    ensures forall c <- body :: if conv == 'X' then !('a' <= c <= 'z') else !('A' <= c <= 'Z')
    ensures spec.flags.prec ==> |body| >= spec.prec
    ensures body[0] == '0' ==> (x == 0 && |body| == 1) || (spec.flags.prec && |body| == spec.prec)
  {
    var digits := Numeral(conv, x);
    var zeros := PrecisionZeros(spec, |digits|);
    prefix, body := Prefix(conv, spec, x), Times('0', zeros) + digits;
    BareIs(conv, spec, x);
    BareParts(prefix, zeros, digits);
    NumeralShape(Magnitude(x), base, conv == 'X');
    ReadZeros(zeros, digits, base);
    ZerosInFront(zeros, digits, base);
  }

  lemma BareParts(prefix: string, zeros: nat, digits: string)
    ensures Parts(0, prefix, zeros, digits, 0) == prefix + (Times('0', zeros) + digits)
  {
  }

  lemma ZerosInFront(zeros: nat, digits: string, base: nat)
    requires digits != "" && AllDigits(digits, base) && base >= 1
    ensures var body := Times('0', zeros) + digits;
            && AllDigits(body, base) && |body| == zeros + |digits|
            && body[0] == (if zeros > 0 then '0' else digits[0])
            && forall c <- body :: c == '0' || c in digits
  {
    assert zeros > 0 ==> Times('0', zeros)[0] in Times('0', zeros);
  }

  lemma {:induction false} NumeralShape(n: nat, base: nat, upper: bool)
    requires 2 <= base <= 16
    ensures var d := Reverse(Digits(n, base, upper));
            && d != "" && AllDigits(d, base) && ReadDigits(d, base, 0) == n
            && (d[0] == '0' <==> n == 0) && (n == 0 ==> |d| == 1)
            && forall c <- d :: if upper then !('a' <= c <= 'z') else !('A' <= c <= 'Z')
  {
    var d := Digits(n, base, upper);
    ReversedAreDigits(n, base, upper);
    ReadReversed(n, base, upper, "");
    assert Reverse(d) + "" == Reverse(d);
    LeadingDigit(n, base, upper);
    ReverseLast(d);
    NumeralCase(n, base, upper);
  }

  lemma {:induction false} NumeralCase(n: nat, base: nat, upper: bool)
    requires 2 <= base <= 16
    ensures forall c <- Reverse(Digits(n, base, upper)) :: if upper then !('a' <= c <= 'z') else !('A' <= c <= 'Z')
    decreases n
  {
    ReverseStep(n, base, upper);
    if n >= base {
      DivisionDecreases(n, base);
      NumeralCase(n / base, base, upper);
    }
  }

  /** The width is filled up, by the length in 8 bits, with spaces behind the text with
      `-`; with zeros behind its prefix with `0`, unless a precision is given; with
      spaces in front of it otherwise. */
  lemma IntegerWidth(conv: char, spec: Spec, x: int, bare: string, n: nat, gap: nat)
    requires IsIntegerConversion(conv) && bare == IntegerText(conv, spec.(width := 0), x)
    requires n == if conv == 'd' || conv == 'i' || conv == 'u' then
                    (if x < 0 || spec.flags.plus || spec.flags.space then 1 else 0)
                  else if x == 0 || !(spec.flags.alt || conv == 'p') then 0
                  else if conv == 'o' then 1 else 2
    requires gap == if |bare| % 256 < spec.width then spec.width - |bare| % 256 else 0
    ensures Fills(IntegerText(conv, spec, x), bare, spec.flags.lpad, spec.flags.zfill && !spec.flags.prec, n, gap)
  {
    PaddingOfBare(conv, spec, x);
    BareLength(conv, spec, x);
    if spec.flags.zfill && !spec.flags.prec {
      PrefixLength(conv, spec, x, n);
    }
    Filled(IntegerText(conv, spec, x), bare, spec.flags.lpad, spec.flags.zfill && !spec.flags.prec, n, gap);
  }

  lemma BareLength(conv: char, spec: Spec, x: int)
    ensures |Bare(conv, spec, x)| == NaturalLength(conv, spec, x)
  {
    BareIs(conv, spec, x);
  }

  lemma PrefixLength(conv: char, spec: Spec, x: int, n: nat)
    requires IsIntegerConversion(conv) && !spec.flags.prec
    requires n == if conv == 'd' || conv == 'i' || conv == 'u' then
                    (if x < 0 || spec.flags.plus || spec.flags.space then 1 else 0)
                  else if x == 0 || !(spec.flags.alt || conv == 'p') then 0
                  else if conv == 'o' then 1 else 2
    ensures |Prefix(conv, spec, x)| == n
  {
  }

  // ---- strings and characters ---------------------------------------------------------------

  /** A string is printed up to its NUL or its precision. */
  lemma StringShape(spec: Spec, s: string)
    ensures var p := Printed(spec, s);
            && p <= s && '\0' !in p && (spec.flags.prec ==> |p| <= spec.prec) && |p| <= 65535
            && (|p| == |s| || s[|p|] == '\0' || |p| == if spec.flags.prec then spec.prec else 65535)
  {
  }

  /** The width is filled up with spaces, behind the text with `-`. */
  lemma StringWidth(spec: Spec, text: string, gap: nat)
    requires gap == if |text| < spec.width then spec.width - |text| else 0
    ensures Fills(Padded(spec, text), text, spec.flags.lpad, false, 0, gap)
  {
    Filled(Padded(spec, text), text, spec.flags.lpad, false, 0, gap);
  }

  // ---- which argument a conversion takes ------------------------------------------------------

  /** Each conversion takes one argument of its kind; without one, or for any other
      character, the call ends. */
  lemma FloatTakes(engine: Engine, c: char, spec: Spec, ap: seq<Arg>)
    requires c == 'e' || c == 'f' || c == 'g' || c == 'E' || c == 'F' || c == 'G'
    ensures Convert(engine, c, spec, ap)
         == if ap != [] && ap[0].Double? then Done(FloatText(c, spec, Digitise(engine, c, spec, ap[0].bits)), ap[1..])
            else Returns
  {
  }

  lemma StringTakes(engine: Engine, c: char, spec: Spec, ap: seq<Arg>)
    requires c == 's' || c == 'S'
    ensures Convert(engine, c, spec, ap)
         == if ap != [] && ap[0].Text? then Done(Padded(spec, Printed(spec, ap[0].s)), ap[1..]) else Returns
  {
  }

  lemma CharTakes(engine: Engine, c: char, spec: Spec, ap: seq<Arg>)
    requires c == 'c'
    ensures Convert(engine, c, spec, ap)
         == if ap != [] && ap[0].Word? then Done(Padded(spec, [(ap[0].x % 256) as char]), ap[1..]) else Returns
  {
  }

  lemma IntegerTakes(engine: Engine, c: char, spec: Spec, ap: seq<Arg>)
    requires IsIntegerConversion(c)
    ensures Convert(engine, c, spec, ap)
         == if ap != [] && ap[0].Word? then Done(IntegerText(c, spec, Argument(c, spec.flags.long, ap[0].x)), ap[1..])
            else Returns
  {
  }

  lemma OthersEnd(engine: Engine, c: char, spec: Spec, ap: seq<Arg>)
    requires !IsIntegerConversion(c) && c != 'c' && c != 's' && c != 'S'
    requires !('e' <= c <= 'g' || 'E' <= c <= 'G')
    ensures Convert(engine, c, spec, ap) == Returns
  {
  }

  // ---- the characters of a specification -------------------------------------------------------

  /** While no digit, point or `l` has come, these characters set flags. */
  lemma FlagCharacter(c: char, tail: string, s: Spec)
    requires !s.flags.width && !s.flags.prec && !s.flags.long
    ensures c == '0' ==> Parse([c] + tail, s) == Parse(tail, s.(flags := s.flags.(zfill := true)))
    ensures c == '-' ==> Parse([c] + tail, s) == Parse(tail, s.(flags := s.flags.(lpad := true)))
    ensures c == '#' ==> Parse([c] + tail, s) == Parse(tail, s.(flags := s.flags.(alt := true)))
    ensures c == ' ' ==> Parse([c] + tail, s) == Parse(tail, s.(flags := s.flags.(space := true)))
    ensures c == '+' ==> Parse([c] + tail, s) == Parse(tail, s.(flags := s.flags.(plus := true, space := true)))
  {
    ValueTests(s.flags);
    assert ([c] + tail)[1..] == tail;
  }

  /** Digits belong to the width, or behind a point to the precision; both are kept in
      8 bits. */
  lemma DigitCharacter(c: char, tail: string, s: Spec, n: Byte)
    requires '0' <= c <= '9' && !s.flags.long && (c != '0' || s.flags.width || s.flags.prec)
    requires n == (10 * (if s.flags.prec then s.prec else s.width) + (c as int - '0' as int)) % 256
    ensures s.flags.prec ==> Parse([c] + tail, s) == Parse(tail, s.(prec := n))
    ensures !s.flags.prec ==> Parse([c] + tail, s) == Parse(tail, s.(width := n, flags := s.flags.(width := true)))
  {
    DigitAdjusts(s, c);
    ParseMore(c, tail, s, if s.flags.prec then s.(prec := n) else s.(width := n, flags := s.flags.(width := true)));
  }

  /** A point starts the precision, a second one ends the call; `l` makes the argument
      long and ends the adjustments, `h` does nothing. */
  lemma OtherCharacter(c: char, tail: string, s: Spec)
    requires !s.flags.long
    ensures c == '.' ==>
              Parse([c] + tail, s)
              == if s.flags.prec then Aborted else Parse(tail, s.(flags := s.flags.(prec := true)))
    ensures c == 'l' ==> Parse([c] + tail, s) == Parse(tail, s.(flags := s.flags.(long := true)))
    ensures c == 'h' ==> Parse([c] + tail, s) == Parse(tail, s)
  {
    ValueTests(s.flags);
    assert ([c] + tail)[1..] == tail;
  }

  /** Any other character is the conversion, as is any character behind `l`. */
  lemma ConversionCharacter(c: char, tail: string, s: Spec)
    requires c != '\0'
    requires s.flags.long || !('0' <= c <= '9' || c == '.' || c == 'l' || c == 'h'
                               || c == '-' || c == '+' || c == ' ' || c == '#')
    ensures Parse([c] + tail, s) == Conversion(c, s, tail)
  {
    ValueTests(s.flags);
    ParseLeave(c, tail, s);
  }

  /** Behind digits and points the four flag characters are conversions, which the call
      does not know. */
  lemma LateFlag(c: char, tail: string, s: Spec)
    requires c == '-' || c == '+' || c == ' ' || c == '#'
    requires s.flags.width || s.flags.prec || s.flags.long
    ensures Parse([c] + tail, s) == Conversion(c, s, tail)
  {
    ValueTests(s.flags);
    ParseLeave(c, tail, s);
  }

  // ---- text between the fields ----------------------------------------------------------------

  /** Text without `%` is printed as it is, but for a carriage return in front of each
      line feed. */
  lemma {:induction false} PlainOutput(engine: Engine, text: string, ap: seq<Arg>)
    requires '%' !in text && '\0' !in text
    ensures text != "" ==>
              Output(engine, text, ap) == (if text[0] == '\n' then "\r\n" else [text[0]]) + Output(engine, text[1..], ap)
    ensures '\n' !in text ==> Output(engine, text, ap) == text
    decreases |text|
  {
    if text != "" {
      OutputStep(engine, text, 0, ap);
      assert text[0..] == text && text[0] in text;
      PlainOutput(engine, text[1..], ap);
      assert [text[0]] + text[1..] == text;
    }
  }

  /** `%%` prints one of them, and a NUL ends the format. */
  lemma PercentAndNul(engine: Engine, tail: string, ap: seq<Arg>)
    ensures Output(engine, "%%" + tail, ap) == "%" + Output(engine, tail, ap)
    ensures Output(engine, "\0" + tail, ap) == ""
  {
    OutputStep(engine, "%%" + tail, 0, ap);
    assert ("%%" + tail)[0..] == "%%" + tail && ("%%" + tail)[2..] == tail;
  }
}
