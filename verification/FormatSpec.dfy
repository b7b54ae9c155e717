/** Parsing of one conversion specification, after its `%`. */
module FormatSpec {
  import opened Bits
  import opened Options

  /** The 8-bit variable `flags`, bit 0 first.  Later phases reuse bits under a
      second name: `long` is also FL_NEGATIVE and FL_FLTFIX, `space` is also
      FL_ALTHEX, `plus` is also FL_ALTUPP, `alt` is also FL_FLTUPP and `prec` is
      also FL_FLTEXP. */
  datatype Flags = Flags(zfill: bool, plus: bool, space: bool, lpad: bool,
                         alt: bool, width: bool, prec: bool, long: bool)
  {
    /** The number that a comparison such as `flags < FL_WIDTH` sees. */
    function Value(): nat {
      Weight(zfill, 0x01) + Weight(plus, 0x02) + Weight(space, 0x04) + Weight(lpad, 0x08)
      + Weight(alt, 0x10) + Weight(width, 0x20) + Weight(prec, 0x40) + Weight(long, 0x80)
    }
  }

  const NO_FLAGS := Flags(false, false, false, false, false, false, false, false)
  const FL_WIDTH := 0x20
  const FL_LONG := 0x80

  function Weight(bit: bool, weight: nat): nat {
    if bit then weight else 0
  }

  datatype Spec = Spec(flags: Flags, width: Byte, prec: Byte)

  const EMPTY := Spec(NO_FLAGS, 0, 0)

  /** What the loop body does with one character. */
  datatype Adjustment = More(spec: Spec) | Leave | Abort

  predicate IsDigit(c: char) {
    '0' <= c <= '9'
  }

  function DigitOf(c: char): nat
    requires IsDigit(c)
  {
    c as int - '0' as int
  }

  /** The cases of the `switch`, which are open while `flags < FL_WIDTH`. */
  function AdjustFlag(f: Flags, c: char): Option<Flags> {
    match c
    case '0' => Some(f.(zfill := true))
    case '+' => Some(f.(plus := true, space := true))
    case ' ' => Some(f.(space := true))
    case '-' => Some(f.(lpad := true))
    case '#' => Some(f.(alt := true))
    case _ => None
  }

  function Adjust(s: Spec, c: char): Adjustment {
    if s.flags.Value() < FL_WIDTH && AdjustFlag(s.flags, c).Some? then
      More(s.(flags := AdjustFlag(s.flags, c).value))
    else if s.flags.Value() >= FL_LONG then Leave
    else if IsDigit(c) then
      if s.flags.prec then More(s.(prec := (10 * s.prec + DigitOf(c)) % 256))
      else More(s.(width := (10 * s.width + DigitOf(c)) % 256, flags := s.flags.(width := true)))
    else if c == '.' then
      if s.flags.prec then Abort else More(s.(flags := s.flags.(prec := true)))
    else if c == 'l' then More(s.(flags := s.flags.(long := true)))
    else if c == 'h' then More(s)
    else Leave
  }

  /** `Conversion('\0', ...)` stands for a format that ends inside the
      specification; a second `.` aborts the whole call. */
  datatype Parsed = Conversion(c: char, spec: Spec, rest: string) | Aborted

  function Parse(fmt: string, s: Spec): (r: Parsed)
    ensures r.Conversion? && fmt != [] ==> |r.rest| < |fmt|
    ensures r.Conversion? && r.c != '\0' ==> fmt != []
    decreases |fmt|
  {
    if fmt == [] || fmt[0] == '\0' then Conversion('\0', s, [])
    else
      match Adjust(s, fmt[0])
      case More(t) => Parse(fmt[1..], t)
      case Leave => Conversion(fmt[0], s, fmt[1..])
      case Abort => Aborted
  }

  /** `GETBYTE`: the format ends with a NUL. */
  function GetByte(fmt: string, pos: nat): char {
    if pos < |fmt| then fmt[pos] else '\0'
  }

  /** The body of the adjustment loop, variable by variable. */
  method AdjustInPlace(s: Spec, c: char) returns (a: Adjustment)
    ensures a == Adjust(s, c)
  {
    var flags, width, prec := s.flags, s.width, s.prec;
    if flags.Value() < FL_WIDTH {
      var adjusted := true;
      match c {
        case '0' => flags := flags.(zfill := true);
        case '+' => flags := flags.(plus := true); flags := flags.(space := true);
        case ' ' => flags := flags.(space := true);
        case '-' => flags := flags.(lpad := true);
        case '#' => flags := flags.(alt := true);
        case _ => adjusted := false;
      }
      if adjusted {
        return More(Spec(flags, width, prec));
      }
    }
    if flags.Value() >= FL_LONG {
      return Leave;
    }
    if IsDigit(c) {
      if flags.prec {
        prec := (10 * prec + DigitOf(c)) % 256;
      } else {
        width := (10 * width + DigitOf(c)) % 256;
        flags := flags.(width := true);
      }
    } else if c == '.' {
      if flags.prec {
        return Abort;
      }
      flags := flags.(prec := true);
    } else if c == 'l' {
      flags := flags.(long := true);
    } else if c != 'h' {
      return Leave;
    }
    return More(Spec(flags, width, prec));
  }

  /** One round of the loop, on the format that is left. */
  lemma ParseAt(fmt: string, pos: nat, s: Spec)
    requires pos < |fmt| && fmt[pos] != '\0'
    ensures var a := Adjust(s, fmt[pos]);
            Parse(fmt[pos..], s)
            == if a.More? then Parse(fmt[pos + 1..], a.spec)
               else if a.Leave? then Conversion(fmt[pos], s, fmt[pos + 1..])
               else Aborted
  {
    assert fmt[pos..][0] == fmt[pos] && fmt[pos..][1..] == fmt[pos + 1..];
  }

  lemma ParseEnds(fmt: string, pos: nat, s: Spec)
    requires pos <= |fmt| && GetByte(fmt, pos) == '\0'
    ensures Parse(fmt[pos..], s) == Conversion('\0', s, [])
  {
    if pos < |fmt| {
      assert fmt[pos..][0] == '\0';
    } else {
      assert fmt[pos..] == [];
    }
  }

  /** The adjustment loop of `_vprintf`, started on the character at `start`. */
  method Scan(fmt: string, start: nat) returns (r: Parsed, next: nat)
    requires start <= |fmt|
    ensures r == Parse(fmt[start..], EMPTY)
    ensures r.Conversion? && r.c != '\0' ==> start < next <= |fmt| && r.rest == fmt[next..]
  {
    var flags, width: Byte, prec: Byte := NO_FLAGS, 0, 0;
    next := start;
    var c := GetByte(fmt, next);
    while c != '\0'
      invariant start <= next <= |fmt| && c == GetByte(fmt, next)
      invariant Parse(fmt[start..], EMPTY) == Parse(fmt[next..], Spec(flags, width, prec))
      decreases |fmt| - next
    {
      ParseAt(fmt, next, Spec(flags, width, prec));
      var a := AdjustInPlace(Spec(flags, width, prec), c);
      match a {
        case More(s) => flags, width, prec := s.flags, s.width, s.prec;
        case Leave => return Conversion(c, Spec(flags, width, prec), fmt[next + 1..]), next + 1;
        case Abort => return Aborted, next;
      }
      next := next + 1;
      c := GetByte(fmt, next);
    }
    ParseEnds(fmt, next, Spec(flags, width, prec));
    r := Conversion('\0', Spec(flags, width, prec), []);
  }

  // ---- canonical specifications ------------------------------------------------

  datatype Length = Plain | Short | Long

  /** A conversion specification as the C standard describes it; a width of 0
      means that none is written. */
  datatype Directive = Directive(
    zero: bool, plus: bool, space: bool, left: bool, alt: bool,
    width: nat, prec: Option<nat>, length: Length, conv: char)

  function Decimal(n: nat): (r: string)
    ensures r != [] && forall c <- r :: IsDigit(c)
  {
    if n < 10 then [('0' as int + n) as char]
    else Decimal(n / 10) + [('0' as int + n % 10) as char]
  }

  function When(b: bool, text: string): string {
    if b then text else ""
  }

  function FlagText(d: Directive): string {
    When(d.zero, "0") + When(d.plus, "+") + When(d.space, " ") + When(d.left, "-") + When(d.alt, "#")
  }

  function PrecText(prec: Option<nat>): string {
    if prec.Some? then "." + Decimal(prec.value) else ""
  }

  function PrecOf(prec: Option<nat>): Byte {
    if prec.Some? then prec.value % 256 else 0
  }

  function LengthText(length: Length): string {
    match length case Plain => "" case Short => "h" case Long => "l"
  }

  function Render(d: Directive): string {
    FlagText(d) + When(d.width > 0, Decimal(d.width)) + PrecText(d.prec) + LengthText(d.length) + [d.conv]
  }

  function FlagsOf(d: Directive): Flags {
    Flags(d.zero, d.plus, d.plus || d.space, d.left, d.alt, false, false, false)
  }

  /** The variables of the code that stand for `d`. */
  function SpecOf(d: Directive): Spec {
    Spec(FlagsOf(d).(width := d.width > 0, prec := d.prec.Some?, long := d.length.Long?),
         d.width % 256, PrecOf(d.prec))
  }

  /** Characters that the adjustment loop never takes for an adjustment. */
  predicate IsConversion(c: char) {
    !IsDigit(c) && c !in "+ -#.lh\0"
  }

  lemma ParseMore(c: char, tail: string, s: Spec, t: Spec)
    requires c != '\0' && Adjust(s, c) == More(t)
    ensures Parse([c] + tail, s) == Parse(tail, t)
  {
    assert ([c] + tail)[1..] == tail;
  }

  lemma ParseLeave(c: char, tail: string, s: Spec)
    requires c != '\0' && Adjust(s, c) == Leave
    ensures Parse([c] + tail, s) == Conversion(c, s, tail)
  {
    assert ([c] + tail)[1..] == tail;
  }

  function Fold(digits: string, acc: Byte): Byte
    requires forall c <- digits :: IsDigit(c)
    decreases |digits|
  {
    if digits == [] then acc else Fold(digits[1..], (10 * acc + DigitOf(digits[0])) % 256)
  }

  lemma {:induction false} FoldAppends(digits: string, c: char, acc: Byte)
    requires IsDigit(c) && forall d <- digits :: IsDigit(d)
    ensures forall d <- digits + [c] :: IsDigit(d)
    ensures Fold(digits + [c], acc) == (10 * Fold(digits, acc) + DigitOf(c)) % 256
    decreases |digits|
  {
    if digits == [] {
      assert ([] + [c])[1..] == [];
    } else {
      assert (digits + [c])[1..] == digits[1..] + [c];
      FoldAppends(digits[1..], c, (10 * acc + DigitOf(digits[0])) % 256);
    }
  }

  lemma ByteShift(n: nat)
    ensures (10 * ((n / 10) % 256) + n % 10) % 256 == n % 256
  {
    var q, r := n / 10 / 256, n / 10 % 256;
    assert n == 10 * r + n % 10 + 256 * (10 * q);
    ModShift(10 * r + n % 10, 256, 10 * q);
  }

  /** Reading a decimal numeral digit by digit in 8 bits gives it modulo 256. */
  lemma {:induction false} FoldDecimal(n: nat)
    ensures Fold(Decimal(n), 0) == n % 256
  {
    if n < 10 {
      assert Decimal(n)[1..] == [];
    } else {
      FoldDecimal(n / 10);
      FoldAppends(Decimal(n / 10), ('0' as int + n % 10) as char, 0);
      ByteShift(n);
    }
  }

  lemma ValueTests(f: Flags)
    ensures f.Value() < FL_WIDTH <==> !f.width && !f.prec && !f.long
    ensures f.Value() < FL_LONG <==> !f.long
  {
  }

  /** `s` after a digit of its precision or, without one, of its width. */
  function WithDigit(s: Spec, c: char): Spec
    requires IsDigit(c)
  {
    if s.flags.prec then s.(prec := (10 * s.prec + DigitOf(c)) % 256)
    else s.(width := (10 * s.width + DigitOf(c)) % 256, flags := s.flags.(width := true))
  }

  lemma DigitAdjusts(s: Spec, c: char)
    requires IsDigit(c) && !s.flags.long && (s.flags.width || s.flags.prec || c != '0')
    ensures Adjust(s, c) == More(WithDigit(s, c))
  {
    ValueTests(s.flags);
  }

  lemma ParseDigit(c: char, tail: string, s: Spec)
    requires IsDigit(c) && !s.flags.long && (s.flags.width || s.flags.prec || c != '0')
    ensures Parse([c] + tail, s) == Parse(tail, WithDigit(s, c))
  {
    DigitAdjusts(s, c);
    ParseMore(c, tail, s, WithDigit(s, c));
  }

  function WithDigits(s: Spec, digits: string): Spec
    requires forall c <- digits :: IsDigit(c)
    decreases |digits|
  {
    if digits == [] then s else WithDigits(WithDigit(s, digits[0]), digits[1..])
  }

  lemma {:induction false} WithDigitsFolds(s: Spec, digits: string)
    requires (forall c <- digits :: IsDigit(c)) && (s.flags.width || s.flags.prec)
    ensures WithDigits(s, digits)
         == if s.flags.prec then s.(prec := Fold(digits, s.prec)) else s.(width := Fold(digits, s.width))
    decreases |digits|
  {
    if digits == [] {
    } else {
      WithDigitsFolds(WithDigit(s, digits[0]), digits[1..]);
    }
  }

  /** Digits after the first one of a width, and all digits of a precision. */
  lemma {:induction false} ParseDigits(digits: string, tail: string, s: Spec)
    requires forall c <- digits :: IsDigit(c)
    requires !s.flags.long && (s.flags.width || s.flags.prec)
    ensures Parse(digits + tail, s) == Parse(tail, WithDigits(s, digits))
    decreases |digits|
  {
    if digits == [] {
      assert [] + tail == tail;
    } else {
      var c, more := digits[0], digits[1..];
      assert digits + tail == [c] + (more + tail);
      ParseDigit(c, more + tail, s);
      ParseDigits(more, tail, WithDigit(s, c));
    }
  }

  lemma {:induction false} DecimalLeads(n: nat)
    requires n > 0
    ensures Decimal(n)[0] != '0'
  {
    if n >= 10 { DecimalLeads(n / 10); }
  }

  lemma ParseFlag(b: bool, c: char, tail: string, f: Flags, g: Flags)
    requires !f.width && !f.prec && !f.long && AdjustFlag(f, c).Some?
    requires g == if b then AdjustFlag(f, c).value else f
    ensures Parse(When(b, [c]) + tail, EMPTY.(flags := f)) == Parse(tail, EMPTY.(flags := g))
  {
    ValueTests(f);
    if b {
      ParseMore(c, tail, EMPTY.(flags := f), EMPTY.(flags := g));
    } else {
      assert "" + tail == tail;
    }
  }

  lemma ParseZeroAndPlus(zero: bool, plus: bool, tail: string)
    ensures Parse(When(zero, "0") + (When(plus, "+") + tail), EMPTY)
         == Parse(tail, EMPTY.(flags := NO_FLAGS.(zfill := zero, plus := plus, space := plus)))
  {
    var f := NO_FLAGS.(zfill := zero);
    ParseFlag(zero, '0', When(plus, "+") + tail, NO_FLAGS, f);
    ParseFlag(plus, '+', tail, f, f.(plus := plus, space := plus));
  }

  lemma ParseLeftAndAlt(left: bool, alt: bool, f: Flags, tail: string)
    requires !f.lpad && !f.alt && !f.width && !f.prec && !f.long
    ensures Parse(When(left, "-") + (When(alt, "#") + tail), EMPTY.(flags := f))
         == Parse(tail, EMPTY.(flags := f.(lpad := left, alt := alt)))
  {
    var g := f.(lpad := left);
    assert AdjustFlag(f, '-') == Some(f.(lpad := true)) && AdjustFlag(g, '#') == Some(g.(alt := true));
    ParseFlag(left, '-', When(alt, "#") + tail, f, g);
    ParseFlag(alt, '#', tail, g, g.(alt := alt));
  }

  lemma ParseFlags(d: Directive, tail: string)
    ensures Parse(FlagText(d) + tail, EMPTY) == Parse(tail, EMPTY.(flags := FlagsOf(d)))
  {
    Nested(When(d.zero, "0"), When(d.plus, "+"), When(d.space, " "), When(d.left, "-"), When(d.alt, "#"), tail);
    var last := When(d.left, "-") + (When(d.alt, "#") + tail);
    var f := NO_FLAGS.(zfill := d.zero, plus := d.plus, space := d.plus);
    var g := f.(space := d.plus || d.space);
    ParseZeroAndPlus(d.zero, d.plus, When(d.space, " ") + last);
    ParseFlag(d.space, ' ', last, f, g);
    ParseLeftAndAlt(d.left, d.alt, g, tail);
  }

  /** A width: its first digit is not a `0`, which would be a flag. */
  lemma ParseNumber(digits: string, tail: string, s: Spec)
    requires digits != [] && digits[0] != '0' && forall c <- digits :: IsDigit(c)
    requires !s.flags.long && !s.flags.prec && s.width == 0
    ensures Parse(digits + tail, s) == Parse(tail, WithDigits(s, digits))
    ensures WithDigits(s, digits) == s.(flags := s.flags.(width := true), width := Fold(digits, 0))
  {
    var c, more := digits[0], digits[1..];
    assert digits + tail == [c] + (more + tail);
    ParseDigit(c, more + tail, s);
    ParseDigits(more, tail, WithDigit(s, c));
    WithDigitsFolds(WithDigit(s, c), more);
  }

  lemma ParseWidth(width: nat, tail: string, s: Spec)
    requires !s.flags.long && !s.flags.prec && !s.flags.width && s.width == 0
    ensures Parse(When(width > 0, Decimal(width)) + tail, s)
         == Parse(tail, s.(flags := s.flags.(width := width > 0), width := width % 256))
  {
    if width > 0 {
      DecimalLeads(width);
      FoldDecimal(width);
      ParseNumber(Decimal(width), tail, s);
    } else {
      assert "" + tail == tail;
    }
  }

  lemma ParsePrecision(prec: Option<nat>, tail: string, s: Spec)
    requires !s.flags.long && !s.flags.prec && s.prec == 0
    ensures Parse(PrecText(prec) + tail, s)
         == Parse(tail, s.(flags := s.flags.(prec := prec.Some?), prec := PrecOf(prec)))
  {
    if prec.Some? {
      var digits := Decimal(prec.value);
      FoldDecimal(prec.value);
      var t := s.(flags := s.flags.(prec := true));
      assert PrecText(prec) + tail == ['.'] + (digits + tail);
      ParseMore('.', digits + tail, s, t);
      ParseDigits(digits, tail, t);
      WithDigitsFolds(t, digits);
    } else {
      assert "" + tail == tail;
    }
  }

  lemma ParseLength(length: Length, rest: string, s: Spec)
    requires !s.flags.long
    ensures Parse(LengthText(length) + rest, s) == Parse(rest, s.(flags := s.flags.(long := length.Long?)))
  {
    if length.Plain? {
      assert "" + rest == rest;
    } else {
      LengthAdjusts(length, s);
      ParseMore(LengthText(length)[0], rest, s, s.(flags := s.flags.(long := length.Long?)));
    }
  }

  lemma LengthAdjusts(length: Length, s: Spec)
    requires !s.flags.long && !length.Plain?
    ensures Adjust(s, LengthText(length)[0]) == More(s.(flags := s.flags.(long := length.Long?)))
  {
    ValueTests(s.flags);
  }

  /** No adjustment starts with a conversion character. */
  lemma ConversionLeaves(c: char, s: Spec)
    requires IsConversion(c)
    ensures Adjust(s, c) == Leave
  {
  }

  lemma ParseTail(d: Directive, tail: string, s: Spec)
    requires IsConversion(d.conv) && !s.flags.long
    ensures Parse(LengthText(d.length) + ([d.conv] + tail), s)
         == Conversion(d.conv, s.(flags := s.flags.(long := d.length.Long?)), tail)
  {
    var t := s.(flags := s.flags.(long := d.length.Long?));
    ParseLength(d.length, [d.conv] + tail, s);
    ConversionLeaves(d.conv, t);
    ParseLeave(d.conv, tail, t);
  }

  lemma Nested(a: string, b: string, c: string, d: string, e: string, f: string)
    ensures a + b + c + d + e + f == a + (b + (c + (d + (e + f))))
  {
  }

  /** Parsing the canonical text of any specification recovers it, with width
      and precision modulo 256 and `+` also setting the space flag. */
  lemma ParseRender(d: Directive, tail: string)
    requires IsConversion(d.conv)
    ensures Parse(Render(d) + tail, EMPTY) == Conversion(d.conv, SpecOf(d), tail)
  {
    var t3 := LengthText(d.length) + ([d.conv] + tail);
    var t2 := PrecText(d.prec) + t3;
    var t1 := When(d.width > 0, Decimal(d.width)) + t2;
    Nested(FlagText(d), When(d.width > 0, Decimal(d.width)), PrecText(d.prec), LengthText(d.length), [d.conv], tail);
    var s2 := Spec(FlagsOf(d).(width := d.width > 0), d.width % 256, 0);
    var s3 := s2.(flags := s2.flags.(prec := d.prec.Some?), prec := PrecOf(d.prec));
    ParseFlags(d, t1);
    ParseWidth(d.width, t2, EMPTY.(flags := FlagsOf(d)));
    ParsePrecision(d.prec, t3, s2);
    ParseTail(d, tail, s3);
  }
}
