/** `BetterStream::_vprintf`, which writes to the stream character by character. */
module BetterStreams {
  import opened Bits
  import opened FormatSpec
  import opened FormatInteger
  import opened FormatFloat
  import opened Printf

  lemma QuotientByTen(e: nat, q: nat, r: nat)
    requires e == r + 10 * q && r < 10
    ensures e / 10 == q && e % 10 == r
  {
  }

  /** Incrementing a byte. */
  lemma NextByte(x: nat)
    ensures (x + 1) % 256 == if x % 256 == 255 then 0 else x % 256 + 1
  {
  }

  lemma Regrouped(a: string, b: string, c: string, d: string)
    ensures a + b + c + d == a + (b + c + d)
  {
  }

  class BetterStream {
    /** Everything written so far. */
    var out: string

    constructor ()
      ensures out == ""
    {
      out := "";
    }

    method Write(c: char)
      modifies this
      ensures out == old(out) + [c]
    {
      out := out + [c];
    }

    /** The loops that write one character a number of times. */
    method WriteTimes(c: char, n: nat)
      modifies this
      ensures out == old(out) + Times(c, n)
    {
      var left := n;
      while left != 0
        invariant 0 <= left <= n && out == old(out) + Times(c, n - left)
        decreases left
      {
        TimesAppends(c, n - left);
        Write(c);
        left := left - 1;
      }
    }

    /** d and i: the sign bit takes the place of the length bit. */
    method SelectSigned(spec: Flags, arg: int) returns (flags: Flags, n: nat)
      ensures var x: int := if spec.long then ToLong(arg) else ToShort(arg);
              n == Magnitude(x) && flags == spec.(long := x < 0, alt := false)
    {
      flags := spec;
      var x: int := if flags.long then ToLong(arg) else ToShort(arg);
      NegatedMagnitude(x);
      flags := flags.(long := false);
      flags := flags.(alt := false);
      if x < 0 {
        x := ToLong(-x);
        flags := flags.(long := true);
      }
      n := x % UINT32;
    }

    /** u, o, x, X and p. */
    method SelectUnsigned(conv: char, spec: Flags, arg: int)
      returns (ok: bool, flags: Flags, n: nat, base: nat, upper: bool)
      ensures ok == (conv == 'u' || IsPrefixed(conv))
      ensures ok ==> n == (if spec.long then arg % UINT32 else arg % UINT16)
      ensures ok ==> base == Base(conv) && upper == (conv == 'X')
      ensures ok ==> flags == FlagsFor(conv, spec, arg)
    {
      ok, flags, base, upper := SelectBase(conv, spec);
      n := 0;
      if ok {
        UnsignedFlags(conv, spec, arg);
        n := UnsignedWord(flags.long, arg);
        flags := flags.(long := false);
      }
    }

    method UnsignedWord(long: bool, arg: int) returns (n: nat)
      ensures n == if long then arg % UINT32 else arg % UINT16
    {
      n := if long then arg % UINT32 else arg % UINT16;
    }

    /** The flags of the unsigned conversions, bit by bit. */
    static function UnsignedBits(conv: char, f: Flags): Flags {
      var alt := f.alt || conv == 'p';
      if conv == 'u' then f.(alt := false)
      else f.(plus := conv == 'X' && alt, space := conv != 'o' && alt, alt := alt)
    }

    static lemma UnsignedFlags(conv: char, f: Flags, x: int)
      requires conv == 'u' || IsPrefixed(conv)
      ensures FlagsFor(conv, f, x) == UnsignedBits(conv, f).(long := false) && UnsignedBits(conv, f).long == f.long
    {
    }

    /** Base, letter case and prefix bits. */
    method SelectBase(conv: char, spec: Flags) returns (ok: bool, flags: Flags, base: nat, upper: bool)
      ensures ok == (conv == 'u' || IsPrefixed(conv))
      ensures ok ==> base == Base(conv) && upper == (conv == 'X')
      ensures ok ==> flags == UnsignedBits(conv, spec)
    {
      if conv == 'u' {
        ok, flags, base, upper := true, spec.(alt := false), 10, false;
      } else {
        ok, flags, base, upper := SelectPrefix(conv, spec);
      }
    }

    /** The `switch` on o, p, x and X. */
    method SelectPrefix(conv: char, spec: Flags) returns (ok: bool, flags: Flags, base: nat, upper: bool)
      requires conv != 'u'
      ensures ok == IsPrefixed(conv)
      ensures ok ==> base == Base(conv) && upper == (conv == 'X')
      ensures ok ==> flags == UnsignedBits(conv, spec)
    {
      ok, flags, base, upper := true, spec.(plus := false, space := false), 10, false;
      match conv {
        case 'o' =>
          base := 8;
        case 'p' =>
          flags := flags.(alt := true);
          flags := flags.(space := true);
          base := 16;
        case 'x' =>
          if flags.alt {
            flags := flags.(space := true);
          }
          base := 16;
        case 'X' =>
          if flags.alt {
            flags := flags.(space := true, plus := true);
          }
          base, upper := 16, true;
        case _ =>
          ok := false;
      }
    }

    /** Drops prefix bits that do not apply and computes the length in 8 bits. */
    method SettleInteger(selected: Flags, prec: Byte, buf: string) returns (flags: Flags, len: Byte)
      requires 0 < |buf| <= 11 && !(selected.alt && selected.long)
      ensures flags == Settled(selected, prec, |buf|, buf[|buf| - 1] == '0')
      ensures len == (|PrefixText(flags)| + |buf|
                      + if selected.prec && prec > |buf| then prec - |buf| else 0) % 256
    {
      flags := selected;
      var c: Byte := |buf|;
      len := c;
      if flags.prec {
        flags := flags.(zfill := false);
        if len < prec {
          len := prec;
          if flags.alt && !flags.space {
            flags := flags.(alt := false);
          }
        }
      }
      if flags.alt {
        if buf[c - 1] == '0' {
          flags := flags.(alt := false, space := false, plus := false);
        } else {
          len := (len + 1) % 256;
          if flags.space {
            len := (len + 1) % 256;
          }
        }
      } else if flags.long || flags.plus || flags.space {
        len := (len + 1) % 256;
      }
    }

    /** Where the padding goes, then prefix, zeros and the digits, last one first. */
    method EmitInteger(flags: Flags, spec: Spec, length: Byte, buf: string, ghost prefix: string)
      requires 0 < |buf| <= 11 && (!spec.flags.prec ==> spec.prec == 0)
      requires flags.lpad == spec.flags.lpad && flags.prec == spec.flags.prec
      requires flags.zfill == (spec.flags.zfill && !spec.flags.prec)
      requires prefix == PrefixText(flags) && |prefix| <= 2
      requires length == (|prefix| + PrecisionZeros(spec, |buf|) + |buf|) % 256
      modifies this
      ensures out == old(out) + Assemble(spec, prefix, Reverse(buf))
    {
      AssembledAs(flags, spec, prefix, Reverse(buf), length);
      var before, inner, after := PlanInteger(flags, spec, length, |buf|);
      EmitParts(before, flags, inner, buf, after);
    }

    /** Spaces before the prefix, zeros before the digits, spaces at the end. */
    method PlanInteger(flags: Flags, spec: Spec, length: Byte, c: Byte) returns (before: nat, zeros: nat, after: nat)
      requires (!spec.flags.prec ==> spec.prec == 0) && flags.prec == spec.flags.prec
      requires flags.zfill ==> !flags.prec && length >= c
      ensures before == (if flags.lpad || Infix(flags) then 0 else Gap(spec, length))
      ensures zeros == (if Infix(flags) then Gap(spec, length) else PrecisionZeros(spec, c))
      ensures after == (if flags.lpad then Gap(spec, length) else 0)
    {
      var len, width, prec := length, spec.width, spec.prec;
      before := 0;
      if !flags.lpad {
        if flags.zfill {
          prec := c;
          if len < width {
            prec := (prec + width - len) % 256;
            len := width;
          }
        }
        if len < width {
          before := width - len;
          len := width;
        }
      }
      after := if len < width then width - len else 0;
      zeros := if prec > c then prec - c else 0;
    }

    method EmitParts(before: nat, flags: Flags, zeros: nat, buf: string, after: nat)
      requires buf != ""
      modifies this
      ensures out == old(out) + Parts(before, PrefixText(flags), zeros, Reverse(buf), after)
    {
      PartsAppended(out, before, PrefixText(flags), zeros, Reverse(buf), after);
      WriteTimes(' ', before);
      WritePrefix(flags);
      WriteTimes('0', zeros);
      WriteReversed(buf);
      WriteTimes(' ', after);
    }

    method WritePrefix(flags: Flags)
      modifies this
      ensures out == old(out) + PrefixText(flags)
    {
      if flags.alt {
        Write('0');
        if flags.space {
          Write(if flags.plus then 'X' else 'x');
        }
      } else if flags.long || flags.plus || flags.space {
        var z := ' ';
        if flags.plus { z := '+'; }
        if flags.long { z := '-'; }
        Write(z);
      }
    }

    /** The digits were produced least significant first. */
    method WriteReversed(buf: string)
      requires buf != ""
      modifies this
      ensures out == old(out) + Reverse(buf)
    {
      var c := |buf|;
      assert buf[..c] == buf;
      while true
        invariant 0 < c <= |buf|
        invariant out + Reverse(buf[..c]) == old(out) + Reverse(buf)
        decreases c
      {
        ReverseLast(buf[..c]);
        assert buf[..c][..c - 1] == buf[..c - 1];
        c := c - 1;
        Write(buf[c]);
        if c == 0 {
          break;
        }
      }
    }

    /** d, i, u, o, x, X and p; any other character prints nothing. */
    method PrintInteger(conv: char, spec: Spec, arg: int) returns (ok: bool)
      requires !spec.flags.prec ==> spec.prec == 0
      modifies this
      ensures ok == IsInteger(conv)
      ensures out == old(out) + if ok then IntegerText(conv, spec, Argument(conv, spec.flags.long, arg)) else ""
    {
      var flags, buf;
      ok, flags, buf := SelectInteger(conv, spec, arg);
      if ok {
        ArgumentRange(conv, spec.flags.long, arg);
        FinishInteger(conv, spec, Argument(conv, spec.flags.long, arg), flags, buf);
      }
    }

    method SelectInteger(conv: char, spec: Spec, arg: int) returns (ok: bool, flags: Flags, buf: string)
      ensures ok == IsInteger(conv)
      ensures ok ==> var x := Argument(conv, spec.flags.long, arg);
                     && buf == Digits(Magnitude(x), Base(conv), conv == 'X')
                     && flags == FlagsFor(conv, spec.flags, x)
    {
      var n, base, upper := 0, 10, false;
      if conv == 'd' || conv == 'i' {
        ok := true;
        flags, n := SelectSigned(spec.flags, arg);
      } else {
        ok, flags, n, base, upper := SelectUnsigned(conv, spec.flags, arg);
      }
      buf := if ok then Digits(n, base, upper) else "";
    }

    /** Formatting of the number `x` whose digits and flags were selected. */
    method FinishInteger(conv: char, spec: Spec, ghost x: int, selected: Flags, buf: string)
      requires IsInteger(conv) && (!spec.flags.prec ==> spec.prec == 0)
      requires Magnitude(x) < UINT32 && (x < 0 ==> IsSigned(conv))
      requires buf == Digits(Magnitude(x), Base(conv), conv == 'X') && selected == FlagsFor(conv, spec.flags, x)
      modifies this
      ensures out == old(out) + IntegerText(conv, spec, x)
    {
      var flags, len;
      ghost var prefix;
      flags, len, prefix := SettleFor(conv, spec, x, selected, buf);
      EmitInteger(flags, spec, len, buf, prefix);
    }

    method SettleFor(conv: char, spec: Spec, ghost x: int, selected: Flags, buf: string)
      returns (flags: Flags, len: Byte, ghost prefix: string)
      requires IsInteger(conv) && Magnitude(x) < UINT32 && (x < 0 ==> IsSigned(conv))
      requires buf == Digits(Magnitude(x), Base(conv), conv == 'X') && selected == FlagsFor(conv, spec.flags, x)
      ensures 0 < |buf| <= 11
      ensures flags.lpad == spec.flags.lpad && flags.prec == spec.flags.prec
      ensures flags.zfill == (spec.flags.zfill && !spec.flags.prec)
      ensures prefix == PrefixText(flags) && |prefix| <= 2
      ensures len == (|prefix| + PrecisionZeros(spec, |buf|) + |buf|) % 256
      ensures Assemble(spec, prefix, Reverse(buf)) == IntegerText(conv, spec, x)
    {
      SelectedFacts(conv, spec, x, selected, buf);
      flags, len := SettleInteger(selected, spec.prec, buf);
      prefix := Prefix(conv, spec, x);
      PrefixIsShort(conv, spec, x);
    }

    /** What the digits and flags selected for `x` guarantee. */
    static lemma SelectedFacts(conv: char, spec: Spec, x: int, selected: Flags, buf: string)
      requires IsInteger(conv) && Magnitude(x) < UINT32 && (x < 0 ==> IsSigned(conv))
      requires buf == Digits(Magnitude(x), Base(conv), conv == 'X') && selected == FlagsFor(conv, spec.flags, x)
      ensures 0 < |buf| <= 11 && !(selected.alt && selected.long) && selected.prec == spec.flags.prec
      ensures var flags := Settled(selected, spec.prec, |buf|, buf[|buf| - 1] == '0');
              && PrefixText(flags) == Prefix(conv, spec, x)
              && flags.lpad == spec.flags.lpad && flags.prec == spec.flags.prec
              && flags.zfill == (spec.flags.zfill && !spec.flags.prec)
    {
      DigitsFitBuffer(Magnitude(x), Base(conv), conv == 'X');
      LeadingDigit(Magnitude(x), Base(conv), conv == 'X');
      SettledMeans(conv, spec, x, |buf|);
    }

    /** c, s and S: the text chosen by the conversion, padded to the width. */
    method PrintString(spec: Spec, text: string)
      modifies this
      ensures out == old(out) + Padded(spec, text)
    {
      var width: nat, size := spec.width, |text|;
      if !spec.flags.lpad {
        if size < width {
          WriteTimes(' ', width - size);
          width := size;
        }
      }
      ghost var start := out;
      width := WriteCounting(text, width);
      assert out == start + text;
      WriteTimes(' ', width);
    }

    /** Writes the text; what is left of the width. */
    method WriteCounting(text: string, width: nat) returns (left: nat)
      modifies this
      ensures out == old(out) + text
      ensures left == if |text| < width then width - |text| else 0
    {
      var size, i := |text|, 0;
      left := width;
      assert text[..0] == "";
      while size != 0
        invariant 0 <= i <= |text| && size == |text| - i
        invariant out == old(out) + text[..i]
        invariant left == if i < width then width - i else 0
        decreases size
      {
        assert text[..i + 1] == text[..i] + [text[i]];
        Write(text[i]);
        if left != 0 {
          left := left - 1;
        }
        size := size - 1;
        i := i + 1;
      }
      assert text[..i] == text;
    }

    /** Case, default precision and, by the reused bits, the kind of conversion. */
    method SelectFloat(conv: char, spec: Spec) returns (flags: Flags, prec: Byte)
      requires IsFloat(conv)
      ensures flags == spec.flags.(alt := IsUpper(conv), prec := IsExponential(conv), long := IsFixed(conv))
      ensures Precision(conv, spec) == if !IsFixed(conv) && prec > 7 then 7 else prec
    {
      var c := conv;
      flags, prec := spec.flags, spec.prec;
      if 'E' <= c <= 'G' {
        flags := flags.(alt := true);
        c := (c as int + 'e' as int - 'E' as int) as char;
      } else {
        flags := flags.(alt := false);
      }
      if !flags.prec {
        prec := 6;
      }
      flags := flags.(prec := false, long := false);
      if c == 'e' {
        flags := flags.(prec := true);
      } else if c == 'f' {
        flags := flags.(long := true);
      } else if prec > 0 {
        prec := prec - 1;
      }
    }

    /** e, f, g and their upper-case forms. */
    method PrintFloat(conv: char, spec: Spec, bits: int, engine: Engine)
      requires IsFloat(conv)
      modifies this
      ensures out == old(out) + FloatText(conv, spec, Digitise(engine, conv, spec, bits))
    {
      var flags, prec := SelectFloat(conv, spec);
      var vtype: Byte, ndigs: Byte;
      if flags.long {
        vtype := 7;
        ndigs := if prec < 60 then prec + 1 else 60;
      } else {
        if prec > 7 {
          prec := 7;
        }
        vtype := prec;
        ndigs := 0;
      }
      assert prec == Precision(conv, spec) && ndigs == WantedDigits(conv, prec);
      var r := engine(bits, vtype, ndigs);
      var sign := "";
      if r.minus && !r.nan {
        sign := "-";
      } else if flags.plus {
        sign := "+";
      } else if flags.space {
        sign := " ";
      }
      if r.inf || r.nan {
        PrintSpecial(conv, spec, r, sign);
      } else {
        PrintFinite(conv, spec, r, flags, prec, ndigs, sign);
      }
    }

    method WriteText(text: string)
      modifies this
      ensures out == old(out) + text
    {
      var i := 0;
      assert text[..0] == "";
      while i < |text|
        invariant 0 <= i <= |text| && out == old(out) + text[..i]
      {
        assert text[..i + 1] == text[..i] + [text[i]];
        Write(text[i]);
        i := i + 1;
      }
      assert text[..i] == text;
    }

    /** inf and nan: `0` does not apply to them. */
    method PrintSpecial(conv: char, spec: Spec, r: FtoaResult, sign: string)
      requires (r.inf || r.nan) && sign == SignText(spec.flags, r)
      modifies this
      ensures out == old(out) + FloatText(conv, spec, r)
    {
      var text := if r.nan then "nan" else "inf";
      if IsUpper(conv) {
        text := if r.nan then "NAN" else "INF";
      }
      assert text == Body(conv, spec, r);
      EmitSpecial(spec, sign, text);
    }

    method EmitSpecial(spec: Spec, sign: string, text: string)
      requires |sign| <= 1 && |text| == 3
      modifies this
      ensures out == old(out) + PadFloat(spec.flags, true, Room(spec.width, |sign| + |text|), sign, text)
    {
      var width := spec.width;
      var ndigs := if sign != "" then 4 else 3;
      PadSpecialAppended(out, spec.flags, Room(spec.width, |sign| + |text|), sign, text);
      width := if width > ndigs then width - ndigs else 0;
      assert width == Room(spec.width, |sign| + |text|);
      if !spec.flags.lpad {
        WriteTimes(' ', width);
        width := 0;
      }
      WriteText(sign);
      WriteText(text);
      WriteTimes(' ', width);
    }

    /** Finite numbers: digits in use, length, padding, sign, body. */
    method PrintFinite(conv: char, spec: Spec, r: FtoaResult, flags: Flags, prec: Byte, ndigs: Byte, sign: string)
      requires IsFloat(conv) && !r.inf && !r.nan && sign == SignText(spec.flags, r)
      requires prec == Precision(conv, spec) && ndigs == WantedDigits(conv, prec)
      requires flags.lpad == spec.flags.lpad && flags.zfill == spec.flags.zfill && flags.alt == IsUpper(conv)
      requires flags.long == IsFixed(conv) && flags.prec == IsExponential(conv)
      modifies this
      ensures out == old(out) + FloatText(conv, spec, r)
    {
      var shape := ChooseShape(conv, spec, r, flags, prec, ndigs);
      FiniteBody(conv, spec, r, shape, flags.alt);
      TextOfBody(conv, spec, r, sign, ShapedBody(shape, r, flags.alt));
      EmitFinite(spec, shape, r, flags.alt, sign);
    }

    method EmitFinite(spec: Spec, shape: Shape, r: FtoaResult, upper: bool, sign: string)
      requires shape.used <= 8 && (!shape.fixed ==> shape.prec <= 7) && |sign| <= 1
      modifies this
      ensures var body := ShapedBody(shape, r, upper);
              out == old(out) + PadFloat(spec.flags, false, Room(spec.width, |sign| + |body|), sign, body)
    {
      var width := FreeWidth(spec.width, shape, r, sign);
      RoomBeside(spec.width, shape, r, upper, sign);
      EmitPadded(spec.flags, width, shape, r, upper, sign);
    }

    /** Free space beside the conversion result. */
    method FreeWidth(width: Byte, shape: Shape, r: FtoaResult, sign: string) returns (free: nat)
      requires |sign| <= 1
      ensures free == Room(width, ComputedLength(shape, sign, r))
    {
      var n := if shape.fixed then (if r.exp > 0 then r.exp + 1 else 1) else 5;
      if sign != "" {
        n := n + 1;
      }
      if shape.prec != 0 {
        n := n + shape.prec + 1;
      }
      free := if width > n then width - n else 0;
    }

    method EmitPadded(flags: Flags, free: nat, shape: Shape, r: FtoaResult, upper: bool, sign: string)
      requires shape.used <= 8 && (!shape.fixed ==> shape.prec <= 7)
      modifies this
      ensures out == old(out) + PadFloat(flags, false, free, sign, ShapedBody(shape, r, upper))
    {
      PadFloatAppended(out, flags, free, sign, ShapedBody(shape, r, upper));
      var width := EmitLead(flags, free, sign);
      EmitBody(shape, r, upper);
      WriteTimes(' ', width);
    }

    /** Everything before the first digit; what remains of the width. */
    method EmitLead(flags: Flags, free: nat, sign: string) returns (width: nat)
      modifies this
      ensures width == if flags.lpad then free else 0
      ensures out == old(out) + (if flags.lpad || flags.zfill then "" else Times(' ', free)) + sign
                     + (if flags.lpad || !flags.zfill then "" else Times('0', free))
    {
      width := free;
      ghost var start := out;
      if !flags.lpad && !flags.zfill {
        WriteTimes(' ', width);
        width := 0;
      }
      assert out == start + if flags.lpad || flags.zfill then "" else Times(' ', free);
      WriteText(sign);
      if !flags.lpad {
        WriteTimes('0', width);
        width := 0;
      }
    }

    method EmitBody(shape: Shape, r: FtoaResult, upper: bool)
      requires shape.used <= 8 && (!shape.fixed ==> shape.prec <= 7)
      modifies this
      ensures out == old(out) + ShapedBody(shape, r, upper)
    {
      if shape.fixed {
        EmitFixed(r, shape.used, shape.prec);
      } else {
        EmitMantissa(r, shape.prec);
        EmitExponent(r, upper);
      }
    }

    /** The format adjustment after the engine was called. */
    method ChooseShape(conv: char, spec: Spec, r: FtoaResult, flags: Flags, precision: Byte, wanted: Byte)
      returns (shape: Shape)
      requires IsFloat(conv)
      requires precision == Precision(conv, spec) && wanted == WantedDigits(conv, precision)
      requires flags.long == IsFixed(conv) && flags.prec == IsExponential(conv)
      ensures shape == ShapeOf(conv, spec, r)
    {
      var prec, ndigs := precision, wanted;
      if flags.long {
        ndigs := (ndigs + r.exp) % 256;
        if r.carry && r.digits[0] == '1' {
          ndigs := (ndigs - 1) % 256;
        }
        if ndigs < 1 || ndigs >= 128 {
          ndigs := 1;
        } else if ndigs > 8 {
          ndigs := 8;
        }
        return Shape(true, prec, ndigs);
      }
      if flags.prec {
        return Shape(false, prec, 0);
      }
      var fixed := r.exp <= prec && r.exp >= -4;
      while prec != 0 && r.digits[prec] == '0'
        invariant 0 <= prec <= precision && Trimmed(r.digits, prec) == Trimmed(r.digits, precision)
        decreases prec
      {
        prec := prec - 1;
      }
      if fixed {
        ndigs := prec + 1;
        prec := if prec > r.exp then prec - r.exp else 0;
        return Shape(true, prec, ndigs);
      }
      return Shape(false, prec, 0);
    }

    /** The positional loop, from the leftmost place down to place `-prec`; every
        digit it takes from `buf` lies in `buf[1..8]`. */
    method EmitFixed(r: FtoaResult, ndigs: nat, prec: int)
      requires ndigs <= 8 && prec >= 0
      modifies this
      ensures out == old(out) + FixedBody(r, ndigs, prec)
    {
      var digit := EmitPlaces(r, ndigs, prec, Places(r, ndigs, prec));
      WithPointRounded(r, ndigs, prec);
      ghost var q := RoundedPlaces(r, ndigs, prec);
      if -prec - 1 == r.exp && (r.digits[0] > '5' || (r.digits[0] == '5' && !r.carry)) {
        digit := '1';
      }
      Write(digit);
    }

    /** All places but the last one, whose digit is returned. */
    method EmitPlaces(r: FtoaResult, ndigs: nat, prec: int, ghost p: string) returns (digit: char)
      requires ndigs <= 8 && prec >= 0 && |p| == Top(r.exp) + 1 + prec
      requires forall i :: 0 <= i < |p| ==> p[i] == PlaceDigit(r, ndigs, Top(r.exp) - i)
      modifies this
      ensures digit == p[|p| - 1]
      ensures out == old(out) + WithPoint(p, Top(r.exp) + 1, |p| - 1)
                     + (if |p| - 1 == Top(r.exp) + 1 then "." else "")
    {
      var n: int := if r.exp > 0 then r.exp else 0;
      ghost var top := n;
      while true
        invariant -prec <= n <= top
        invariant out == old(out) + WithPoint(p, top + 1, top - n)
        decreases n + prec
      {
        if n == -1 {
          Write('.');
        }
        digit := DigitAt(r, ndigs, n);
        assert digit == p[top - n];
        n := n - 1;
        if n < -prec {
          return;
        }
        Write(digit);
        WithPointStep(p, top + 1, top - n - 1);
        Regrouped(old(out), WithPoint(p, top + 1, top - n - 1), if n == -2 then "." else "", [digit]);
      }
    }

    method DigitAt(r: FtoaResult, ndigs: nat, n: int) returns (digit: char)
      requires ndigs <= 8
      ensures digit == PlaceDigit(r, ndigs, n)
    {
      digit := if n <= r.exp && n > r.exp - ndigs then r.digits[r.exp - n] else '0';
    }

    /** The first digit, the point, and the digits after it. */
    method EmitMantissa(r: FtoaResult, precision: nat)
      requires precision <= 7
      modifies this
      ensures out == old(out) + ([r.digits[0]] + if precision > 0 then "." + r.digits[1..precision + 1] else "")
    {
      Write(r.digits[0]);
      if precision != 0 {
        Write('.');
        var i, prec := 2, precision;
        ghost var start := out;
        while true
          invariant 0 < prec && i == precision - prec + 2
          invariant out == start + r.digits[1..i - 1]
          decreases prec
        {
          assert r.digits[1..i] == r.digits[1..i - 1] + [r.digits[i - 1]];
          Write(r.digits[i - 1]);
          i := i + 1;
          prec := prec - 1;
          if prec == 0 {
            break;
          }
        }
      }
    }

    /** `e`, a sign and two digits. */
    method EmitExponent(r: FtoaResult, upper: bool)
      modifies this
      ensures out == old(out) + ExponentText(r, upper)
    {
      Write(if upper then 'E' else 'e');
      var exp, c := r.exp, '+';
      if exp < 0 || (exp == 0 && r.carry && r.digits[0] == '1') {
        exp := -exp;
        c := '-';
      }
      Write(c);
      var tens, ones := TensAndOnes(exp);
      Write(tens as char);
      Write(ByteChar('0' as int + ones));
    }

    /** The `for` loop that divides by ten by subtraction. */
    method TensAndOnes(e: nat) returns (tens: Byte, ones: nat)
      ensures ones == e % 10 && tens == ('0' as int + e / 10) % 256
    {
      ones := e;
      ghost var q := 0;
      tens := '0' as int;
      while ones >= 10
        invariant e == ones + 10 * q && q >= 0
        invariant tens == ('0' as int + q) % 256
        decreases ones
      {
        NextByte('0' as int + q);
        tens := if tens == 255 then 0 else tens + 1;
        q := q + 1;
        ones := ones - 10;
      }
      QuotientByTen(e, q, ones);
    }

    /** `_vprintf`: plain characters up to a `%`, its specification, its
        conversion, and again, until the format ends or a conversion gives up. */
    method Vprintf(fmt: string, arguments: seq<Arg>, engine: Engine)
      modifies this
      ensures out == old(out) + Output(engine, fmt, arguments)
    {
      var pos, ap, more := 0, arguments, true;
      assert fmt[0..] == fmt;
      while more
        invariant 0 <= pos <= |fmt|
        invariant out + (if more then Output(engine, fmt[pos..], ap) else "") == old(out) + Output(engine, fmt, arguments)
        decreases more, |fmt| - pos
      {
        pos := PlainCharacters(fmt, pos, ap, engine);
        more := GetByte(fmt, pos) != '\0';
        if more {
          more, pos, ap := OneConversion(fmt, pos, ap, engine);
        }
      }
      assert out + "" == out;
    }

    /** From a `%` to behind its conversion character. */
    method OneConversion(fmt: string, start: nat, arguments: seq<Arg>, engine: Engine)
      returns (more: bool, pos: nat, ap: seq<Arg>)
      requires start < |fmt| && fmt[start] == '%' && GetByte(fmt, start + 1) != '%'
      modifies this
      ensures more ==> start < pos
      ensures pos <= |fmt|
      ensures out + (if more then Output(engine, fmt[pos..], ap) else "")
           == old(out) + Output(engine, fmt[start..], arguments)
    {
      OutputConverts(engine, fmt, start, arguments);
      ParseWellFormed(fmt[start + 1..], EMPTY);
      var parsed, next := Scan(fmt, start + 1);
      more, pos, ap := false, start, arguments;
      assert out + "" == out;
      if parsed.Conversion? && parsed.c != '\0' {
        ghost var d := Convert(engine, parsed.c, parsed.spec, arguments);
        more, ap := ConvertOne(parsed.c, parsed.spec, arguments, engine);
        if more {
          pos := next;
          Associative(old(out), d.text, Output(engine, fmt[pos..], ap));
        }
        assert out + "" == out;
      }
    }

    /** The inner loop; stops at the end or at a `%` that starts a conversion. */
    method PlainCharacters(fmt: string, start: nat, ghost ap: seq<Arg>, ghost engine: Engine) returns (pos: nat)
      requires start <= |fmt|
      modifies this
      ensures start <= pos <= |fmt|
      ensures out + Output(engine, fmt[pos..], ap) == old(out) + Output(engine, fmt[start..], ap)
      ensures GetByte(fmt, pos) != '\0' ==> fmt[pos] == '%' && GetByte(fmt, pos + 1) != '%'
      ensures GetByte(fmt, pos) == '\0' ==> Output(engine, fmt[pos..], ap) == ""
    {
      pos := start;
      while true
        invariant start <= pos <= |fmt|
        invariant out + Output(engine, fmt[pos..], ap) == old(out) + Output(engine, fmt[start..], ap)
        decreases |fmt| - pos
      {
        var next := PlainOne(fmt, pos, ap, engine);
        if next == pos {
          return;
        }
        pos := next;
      }
    }

    /** One character or `%%`; `next == pos` at the end and at a conversion. */
    method PlainOne(fmt: string, pos: nat, ghost ap: seq<Arg>, ghost engine: Engine) returns (next: nat)
      requires pos <= |fmt|
      modifies this
      ensures pos <= next <= |fmt|
      ensures out + Output(engine, fmt[next..], ap) == old(out) + Output(engine, fmt[pos..], ap)
      ensures next == pos && GetByte(fmt, pos) != '\0' ==> fmt[pos] == '%' && GetByte(fmt, pos + 1) != '%'
      ensures next == pos && GetByte(fmt, pos) == '\0' ==> Output(engine, fmt[pos..], ap) == ""
    {
      next := pos;
      var c := GetByte(fmt, next);
      if c == '\0' {
        return;
      }
      OutputStep(engine, fmt, pos, ap);
      if c == '%' {
        c := GetByte(fmt, next + 1);
        if c != '%' {
          return;
        }
        next := next + 1;
      }
      next := next + 1;
      Associative(out, PlainText(c), Output(engine, fmt[next..], ap));
      WritePlain(c);
    }

    /** A carriage return goes out before a line feed. */
    method WritePlain(c: char)
      modifies this
      ensures out == old(out) + PlainText(c)
    {
      if c == '\n' {
        Write('\r');
      }
      Write(c);
    }

    /** The branches on the conversion character. */
    method ConvertOne(c: char, spec: Spec, arguments: seq<Arg>, engine: Engine) returns (ok: bool, ap: seq<Arg>)
      requires !spec.flags.prec ==> spec.prec == 0
      modifies this
      ensures var d := Convert(engine, c, spec, arguments);
              if d.Done? then ok && ap == d.rest && out == old(out) + d.text else !ok && out == old(out)
    {
      ok, ap := false, arguments;
      if ap == [] {
        return;
      }
      var arg := ap[0];
      if IsFloat(c) {
        if arg.Double? {
          PrintFloat(c, spec, arg.bits, engine);
          ok, ap := true, ap[1..];
        }
      } else if c == 'c' {
        if arg.Word? {
          PrintString(spec, [ByteChar(arg.x)]);
          ok, ap := true, ap[1..];
        }
      } else if c == 's' || c == 'S' {
        if arg.Text? {
          PrintString(spec, Printed(spec, arg.s));
          ok, ap := true, ap[1..];
        }
      } else if arg.Word? {
        ok := PrintInteger(c, spec, arg.x);
        if ok {
          ap := ap[1..];
        }
      }
    }
  }
}
