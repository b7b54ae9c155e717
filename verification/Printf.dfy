/** The output of a whole `_vprintf` call as a function of format and arguments. */
module Printf {
  import opened FormatSpec
  import opened FormatInteger
  import opened FormatFloat

  /** What `va_arg` yields: an integer, a string or a double. */
  datatype Arg = Word(x: int) | Text(s: string) | Double(bits: int)

  /** The text of one conversion and the arguments left; `Returns` ends the call,
      for an unknown conversion or an argument of another kind. */
  datatype Converted = Done(text: string, rest: seq<Arg>) | Returns

  function Convert(engine: Engine, c: char, spec: Spec, ap: seq<Arg>): Converted {
    if IsFloat(c) then
      if ap != [] && ap[0].Double? then
        Done(FloatText(c, spec, Digitise(engine, c, spec, ap[0].bits)), ap[1..])
      else Returns
    else if c == 'c' then
      if ap != [] && ap[0].Word? then Done(Padded(spec, [ByteChar(ap[0].x)]), ap[1..]) else Returns
    else if c == 's' || c == 'S' then
      if ap != [] && ap[0].Text? then Done(Padded(spec, Printed(spec, ap[0].s)), ap[1..]) else Returns
    else if IsInteger(c) && ap != [] && ap[0].Word? then
      Done(IntegerText(c, spec, Argument(c, spec.flags.long, ap[0].x)), ap[1..])
    else Returns
  }

  /** An ordinary character; line feeds get a carriage return in front. */
  function PlainText(c: char): string {
    if c == '\n' then "\r\n" else [c]
  }

  function Output(engine: Engine, fmt: string, ap: seq<Arg>): string
    decreases |fmt|, 1
  {
    if fmt == "" || fmt[0] == '\0' then ""
    else if fmt[0] != '%' then PlainText(fmt[0]) + Output(engine, fmt[1..], ap)
    else if |fmt| >= 2 && fmt[1] == '%' then PlainText('%') + Output(engine, fmt[2..], ap)
    else
      var p := Parse(fmt[1..], EMPTY);
      if p.Aborted? then ""
      else
        var d := Convert(engine, p.c, p.spec, ap);
        if d.Returns? || |p.rest| >= |fmt| then "" else d.text + Output(engine, p.rest, d.rest)
  }

  /** One character outside a specification, at `pos`. */
  lemma OutputStep(engine: Engine, fmt: string, pos: nat, ap: seq<Arg>)
    requires pos < |fmt| && fmt[pos] != '\0'
    ensures fmt[pos] != '%' ==>
              Output(engine, fmt[pos..], ap) == PlainText(fmt[pos]) + Output(engine, fmt[pos + 1..], ap)
    ensures fmt[pos] == '%' && GetByte(fmt, pos + 1) == '%' ==>
              Output(engine, fmt[pos..], ap) == PlainText('%') + Output(engine, fmt[pos + 2..], ap)
  {
    assert fmt[pos..][1..] == fmt[pos + 1..];
    if pos + 2 <= |fmt| {
      assert fmt[pos..][2..] == fmt[pos + 2..];
      assert fmt[pos..][1] == fmt[pos + 1];
    }
  }

  /** A line feed in the format becomes carriage return and line feed. */
  lemma LineFeed(engine: Engine, ap: seq<Arg>)
    ensures Output(engine, "\n", ap) == "\r\n"
  {
    OutputStep(engine, "\n", 0, ap);
    assert "\n"[0..] == "\n" && "\n"[1..] == "";
  }

  /** A format that starts with a specification. */
  lemma OutputAtField(engine: Engine, fmt: string, ap: seq<Arg>)
    requires fmt != "" && fmt[0] == '%' && (|fmt| >= 2 ==> fmt[1] != '%')
    ensures var p := Parse(fmt[1..], EMPTY);
            && (p.Conversion? ==> |p.rest| < |fmt|)
            && Output(engine, fmt, ap)
               == if p.Aborted? then ""
                  else
                    var d := Convert(engine, p.c, p.spec, ap);
                    if d.Returns? then "" else d.text + Output(engine, p.rest, d.rest)
  {
  }

  /** A specification at `pos`. */
  lemma OutputConverts(engine: Engine, fmt: string, pos: nat, ap: seq<Arg>)
    requires pos < |fmt| && fmt[pos] == '%' && GetByte(fmt, pos + 1) != '%'
    ensures var p := Parse(fmt[pos + 1..], EMPTY);
            && (p.Conversion? ==> |p.rest| < |fmt[pos..]|)
            && Output(engine, fmt[pos..], ap)
            == if p.Aborted? then ""
               else
                 var d := Convert(engine, p.c, p.spec, ap);
                 if d.Returns? then "" else d.text + Output(engine, p.rest, d.rest)
  {
    var rest := fmt[pos..];
    assert rest[1..] == fmt[pos + 1..];
    assert |rest| >= 2 ==> rest[1] == fmt[pos + 1];
    OutputAtField(engine, rest, ap);
  }

  lemma Associative(a: string, b: string, c: string)
    ensures a + b + c == a + (b + c)
  {
  }

  // ---- templates -----------------------------------------------------------------

  /** A format as its author thinks of it. */
  datatype Piece = Literal(text: string) | Field(d: Directive)

  predicate IsFormat(c: char) {
    IsFloat(c) || IsInteger(c) || c == 'c' || c == 's' || c == 'S'
  }

  predicate WellFormed(pieces: seq<Piece>) {
    forall p <- pieces :: if p.Literal? then '\0' !in p.text else IsFormat(p.d.conv)
  }

  function Escape(text: string): string {
    if text == "" then "" else EscapeChar(text[0]) + Escape(text[1..])
  }

  function EscapeChar(c: char): string {
    if c == '%' then "%%" else [c]
  }

  function Newlines(text: string): string {
    if text == "" then "" else PlainText(text[0]) + Newlines(text[1..])
  }

  function RenderPiece(p: Piece): string {
    match p
    case Literal(text) => Escape(text)
    case Field(d) => "%" + Render(d)
  }

  function RenderAll(pieces: seq<Piece>): string {
    if pieces == [] then "" else RenderPiece(pieces[0]) + RenderAll(pieces[1..])
  }

  /** Literals with their line feeds expanded, fields converted in turn, up to
      the first one that finds no argument of its kind. */
  function Expected(engine: Engine, pieces: seq<Piece>, ap: seq<Arg>): string
    decreases |pieces|
  {
    if pieces == [] then ""
    else
      match pieces[0]
      case Literal(text) => Newlines(text) + Expected(engine, pieces[1..], ap)
      case Field(d) =>
        var c := Convert(engine, d.conv, SpecOf(d), ap);
        if c.Returns? then "" else c.text + Expected(engine, pieces[1..], c.rest)
  }

  lemma {:induction false} OutputOfLiteral(engine: Engine, text: string, tail: string, ap: seq<Arg>)
    requires '\0' !in text
    ensures Output(engine, Escape(text) + tail, ap) == Newlines(text) + Output(engine, tail, ap)
    decreases |text|
  {
    if text == "" {
      assert "" + tail == tail;
    } else {
      var c, more := text[0], text[1..];
      OutputOfLiteral(engine, more, tail, ap);
      Associative(EscapeChar(c), Escape(more), tail);
      OutputOfChar(engine, c, Escape(more) + tail, ap);
      Associative(PlainText(c), Newlines(more), Output(engine, tail, ap));
    }
  }

  lemma OutputOfChar(engine: Engine, c: char, tail: string, ap: seq<Arg>)
    requires c != '\0'
    ensures Output(engine, EscapeChar(c) + tail, ap) == PlainText(c) + Output(engine, tail, ap)
  {
    var fmt := EscapeChar(c) + tail;
    OutputStep(engine, fmt, 0, ap);
    assert fmt[0..] == fmt;
    assert fmt[|EscapeChar(c)|..] == tail;
  }

  /** A specification never starts with a second `%`. */
  lemma RenderHead(d: Directive)
    requires IsFormat(d.conv)
    ensures Render(d) != "" && Render(d)[0] != '%' && IsConversion(d.conv)
  {
    var rest := LengthText(d.length) + [d.conv];
    var r2 := PrecText(d.prec) + rest;
    var r1 := When(d.width > 0, Decimal(d.width)) + r2;
    Nested(FlagText(d), When(d.width > 0, Decimal(d.width)), PrecText(d.prec), LengthText(d.length), [d.conv], "");
    assert [d.conv] + "" == [d.conv];
    assert Render(d) + "" == Render(d);
    assert Render(d) == FlagText(d) + r1;
    assert FlagText(d) != "" ==> FlagText(d)[0] in "0+ -#";
    assert d.width > 0 ==> IsDigit(Decimal(d.width)[0]);
  }

  lemma OutputOfSpecification(engine: Engine, text: string, tail: string, c: char, spec: Spec, ap: seq<Arg>)
    requires text != "" && text[0] != '%' && Parse(text + tail, EMPTY) == Conversion(c, spec, tail)
    ensures var d := Convert(engine, c, spec, ap);
            Output(engine, "%" + text + tail, ap) == if d.Returns? then "" else d.text + Output(engine, tail, d.rest)
  {
    var fmt := "%" + text + tail;
    assert fmt[0] == '%' && fmt[1] == text[0] && fmt[1..] == text + tail;
    OutputAtField(engine, fmt, ap);
  }

  lemma OutputOfField(engine: Engine, d: Directive, tail: string, ap: seq<Arg>)
    requires IsFormat(d.conv)
    ensures var c := Convert(engine, d.conv, SpecOf(d), ap);
            Output(engine, "%" + Render(d) + tail, ap)
            == if c.Returns? then "" else c.text + Output(engine, tail, c.rest)
  {
    RenderHead(d);
    ParseRender(d, tail);
    OutputOfSpecification(engine, Render(d), tail, d.conv, SpecOf(d), ap);
  }

  /** A whole call: rendering any template and running `_vprintf` on it prints
      the literals and the converted arguments in order. */
  lemma {:induction false} OutputOfTemplate(engine: Engine, pieces: seq<Piece>, ap: seq<Arg>)
    requires WellFormed(pieces)
    ensures Output(engine, RenderAll(pieces), ap) == Expected(engine, pieces, ap)
    decreases |pieces|
  {
    if pieces != [] {
      var more := pieces[1..];
      match pieces[0] {
        case Literal(text) =>
          OutputOfLiteral(engine, text, RenderAll(more), ap);
          OutputOfTemplate(engine, more, ap);
        case Field(d) =>
          OutputOfField(engine, d, RenderAll(more), ap);
          var c := Convert(engine, d.conv, SpecOf(d), ap);
          if c.Done? {
            OutputOfTemplate(engine, more, c.rest);
          }
      }
    }
  }

  lemma {:induction false} ParseWellFormed(fmt: string, s: Spec)
    requires !s.flags.prec ==> s.prec == 0
    ensures var r := Parse(fmt, s); r.Conversion? && !r.spec.flags.prec ==> r.spec.prec == 0
    decreases |fmt|
  {
    if fmt != "" && fmt[0] != '\0' && Adjust(s, fmt[0]).More? {
      ParseWellFormed(fmt[1..], Adjust(s, fmt[0]).spec);
    }
  }
}
