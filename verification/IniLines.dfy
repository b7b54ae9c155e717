/** What the INI grammar makes of lines in other layouts than the printed one. */
module IniLines {
  import opened IniGrammar
  import opened IniReader
  import opened IniRoundTrip

  /** White space other than a line feed. */
  predicate Blank(s: string) {
    forall c <- s :: White(c) && c != '\n'
  }

  /** A comment at the end of a line; something blank comes before it. */
  predicate Remark(blank: string, s: string) {
    OneLine(s) && (s == "" || (blank != "" && s[0] == ';'))
  }

  lemma BlankStrips(s: string, blank: string)
    requires Blank(blank) && (s == "" || !IsSpace(s[|s| - 1]))
    ensures RStripped(s + blank) == s
  {
    forall i | |s| <= i < |s + blank|
      ensures IsSpace((s + blank)[i])
    {
      assert (s + blank)[i] in blank;
    }
    RStrippedIs(s + blank, s);
  }

  lemma {:induction false} BlankSkips(blank: string, s: string)
    requires Blank(blank) && (s == "" || !IsSpace(s[0]))
    ensures Leading(blank + s) == |blank| && LSkipped(blank + s) == s
    decreases |blank|
  {
    if blank == "" {
      assert "" + s == s;
    } else {
      var t := blank + s;
      assert t[1..] == blank[1..] + s;
      assert t[0] in blank;
      BlankSkips(blank[1..], s);
      assert t[|blank|..] == s;
    }
  }

  /** No stop inside a part without `c` and without comments, even when blanks
      follow it. */
  lemma NoStopInside(part: string, blank: string, rest: string, c: char, i: nat)
    requires NoComment(part) && Trimmed(part) && c !in part && !IsSpace(c) && c != ';' && Blank(blank)
    requires i < |part| + |blank|
    ensures !StopsAt(part + blank + rest, c, i)
  {
    var t := part + blank + rest;
    if i < |part| {
      assert t[i] == part[i] && part[i] in part;
      NotAComment(part, i);
    } else {
      assert t[i] == blank[i - |part|] && blank[i - |part|] in blank;
    }
  }

  /** The value field: blanks, value, blanks and a remark give the value. */
  lemma FieldGivesValue(b: string, value: string, c: string, remark: string)
    requires Blank(b) && Blank(c) && GoodFirst(value) && Remark(c, remark)
    ensures var v := LSkipped(b + value + c + remark);
            RStripped(v[..Find(v, NUL, 0)]) == value
  {
    var v := value + c + remark;
    assert b + value + c + remark == b + v;
    BlankSkips(b, v);
    var n := |value| + |c|;
    forall i | 0 <= i < n
      ensures !StopsAt(v, NUL, i)
    {
      NoStopInside(value, c, remark, NUL, i);
    }
    if remark != "" {
      assert v[n] == ';' && v[n - 1] == c[|c| - 1] && c[|c| - 1] in c;
    }
    FindIs(v, NUL, n);
    assert v[..n] == value + c;
    BlankStrips(value, c);
  }

  /** `name = value ; remark` with any blanks, or none, around the parts makes the
      same call as `name=value`: layout and remarks have no meaning. */
  lemma LayoutHasNoMeaning(handler: Handler, ctx: Context, name: string, a: string, b: string,
                           value: string, c: string, remark: string)
    requires GoodName(name) && GoodFirst(value) && Blank(a) && Blank(b) && Blank(c) && Remark(c, remark)
    ensures PairLine(handler, ctx, name + a + "=" + b + value + c + remark)
         == PairLine(handler, ctx, name + "=" + value)
  {
    FieldGivesValue(b, value, c, remark);
    DecoratedCall(handler, ctx, name, a, b + value + c + remark, value);
    Reassociated(name, a, b, value, c, remark);
    PairOf(handler, ctx, name, value);
  }

  lemma Reassociated(name: string, a: string, b: string, value: string, c: string, remark: string)
    ensures name + a + "=" + b + value + c + remark == name + a + ("=" + (b + value + c + remark))
  {
  }

  lemma DecoratedCall(handler: Handler, ctx: Context, name: string, a: string, field: string, value: string)
    requires GoodName(name) && Blank(a)
    requires var v := LSkipped(field); RStripped(v[..Find(v, NUL, 0)]) == value
    ensures PairLine(handler, ctx, name + a + ("=" + field))
         == CallHandler(handler, ctx.(prev := Cut(name)), Call(ctx.section, name, value))
  {
    var t := name + a + ("=" + field);
    PairParts(name, a, field);
    PairValue(t, field);
    PairCall(handler, ctx, t, name, value);
  }

  lemma PairCall(handler: Handler, ctx: Context, t: string, name: string, value: string)
    requires HasSeparator(t) && NameOf(t) == name && ValueOf(t) == value
    ensures PairLine(handler, ctx, t)
         == CallHandler(handler, ctx.(prev := Cut(name)), Call(ctx.section, name, value))
  {
  }

  lemma PairValue(t: string, field: string)
    requires HasSeparator(t) && t[Separator(t) + 1..] == field
    ensures var v := LSkipped(field); ValueOf(t) == RStripped(v[..Find(v, NUL, 0)])
  {
  }

  lemma PairParts(name: string, a: string, field: string)
    requires GoodName(name) && Blank(a)
    ensures var t, n := name + a + ("=" + field), |name| + |a|;
            && HasSeparator(t) && t[Separator(t) + 1..] == field && NameOf(t) == name
  {
    var t, n := name + a + ("=" + field), |name| + |a|;
    forall i | 0 <= i < n
      ensures !StopsAt(t, '=', i)
    {
      NoStopInside(name, a, "=" + field, '=', i);
    }
    FindIs(t, '=', n);
    assert t[..n] == name + a;
    BlankStrips(name, a);
  }

  /** A colon separates like `=`, provided no `=` comes anywhere before a comment. */
  lemma ColonSeparates(handler: Handler, ctx: Context, name: string, value: string)
    requires GoodName(name) && GoodFirst(value) && ':' !in name && '=' !in value
    ensures PairLine(handler, ctx, name + ":" + value) == PairLine(handler, ctx, name + "=" + value)
  {
    ColonParts(name, value);
    PairCall(handler, ctx, name + ":" + value, name, value);
    PairOf(handler, ctx, name, value);
  }

  lemma ColonParts(name: string, value: string)
    requires GoodName(name) && GoodFirst(value) && ':' !in name && '=' !in value
    ensures var t := name + ":" + value; HasSeparator(t) && NameOf(t) == name && ValueOf(t) == value
  {
    var t := name + ":" + value;
    ColonAt(name, value);
    assert t[..|name|] == name && t[|name| + 1..] == value;
    RStrippedIs(name, name);
    PairValue(t, value);
    ValueOfFirst(value);
  }

  lemma ColonAt(name: string, value: string)
    requires GoodName(name) && GoodFirst(value) && ':' !in name && '=' !in value
    ensures Separator(name + ":" + value) == |name|
  {
    var t := name + ":" + value;
    NoEqualsSign(name, value);
    forall i | 0 <= i < |name|
      ensures !StopsAt(t, ':', i)
    {
      NoStopInside(name, "", ":" + value, ':', i);
      assert name + "" + (":" + value) == t;
    }
    FindIs(t, ':', |name|);
  }

  lemma NoEqualsSign(name: string, value: string)
    requires GoodName(name) && GoodFirst(value) && '=' !in value
    ensures Find(name + ":" + value, '=', 0) == |name + ":" + value|
  {
    var t := name + ":" + value;
    forall i | 0 <= i < |t|
      ensures !StopsAt(t, '=', i)
    {
      if i < |name| {
        assert t[i] == name[i] && t[i] in name;
        NotAComment(name, i);
      } else if i > |name| {
        assert t[i] == value[i - |name| - 1] && t[i] in value;
        NotAComment(value, i - |name| - 1);
      }
    }
    FindIs(t, '=', |t|);
  }

  /** A line may have an empty value. */
  lemma EmptyValue(handler: Handler, ctx: Context, name: string)
    requires GoodName(name)
    ensures PairLine(handler, ctx, name + "=")
         == CallHandler(handler, ctx.(prev := Cut(name)), Call(ctx.section, name, ""))
  {
    DecoratedCall(handler, ctx, name, "", "", "");
    assert name + "" + ("=" + "") == name + "=";
  }

  /** A line may have an empty name, which ends the continuation of the one before. */
  lemma EmptyName(handler: Handler, ctx: Context, value: string)
    requires GoodFirst(value)
    ensures PairLine(handler, ctx, "=" + value)
         == CallHandler(handler, ctx.(prev := ""), Call(ctx.section, "", value))
  {
    var t := "=" + value;
    FindIs(t, '=', 0);
    assert t[..0] == "" && t[1..] == value;
    ValueOfFirst(value);
  }

  /** Without a name to continue, indentation has no meaning. */
  lemma IndentedWithoutName(handler: Handler, ctx: Context, indent: string, body: string)
    requires Blank(indent) && OneLine(body) && Trimmed(body) && ctx.prev == ""
    ensures Line(handler, ctx, indent + body + "\n", false) == Line(handler, ctx, body + "\n", false)
  {
    IndentedLine(handler, ctx, indent, body, false);
    PrintedLine(handler, ctx, body, false);
    NothingToSkip(body);
    NotIndented(handler, ctx, body);
  }

  lemma IndentedLine(handler: Handler, ctx: Context, indent: string, body: string, first: bool)
    requires Blank(indent) && OneLine(body) && Trimmed(body) && (first ==> body[0] != '\U{EF}')
    ensures Line(handler, ctx, indent + body + "\n", first) == Classified(handler, ctx, body, indent != "")
  {
    assert (indent + body)[|indent + body| - 1] == body[|body| - 1];
    assert (indent + body)[0] == if indent == "" then body[0] else indent[0];
    assert indent != "" ==> indent[0] in indent;
    BlankHasNoNul(indent);
    PrintedLine(handler, ctx, indent + body, first);
    BlankSkips(indent, body);
  }

  /** With one, any indentation makes a continuation, of a `[` or `=` line as well. */
  lemma IndentedContinues(handler: Handler, ctx: Context, indent: string, value: string)
    requires Blank(indent) && indent != "" && GoodMore(value) && ctx.prev != ""
    ensures Line(handler, ctx, indent + value + "\n", false)
         == CallHandler(handler, ctx, Call(ctx.section, ctx.prev, value))
  {
    IndentedLine(handler, ctx, indent, value, false);
  }

  /** A file starts outside of any section and with no name to continue. */
  lemma BeforeAnySection(handler: Handler, indent: string, name: string, value: string)
    requires Blank(indent) && GoodName(name) && GoodFirst(value) && name[0] != '\U{EF}'
    ensures After(LineStep(handler), [indent + (name + "=" + value) + "\n"], 1).calls == [Call("", name, value)]
  {
    var body := name + "=" + value;
    PairIsTrimmed(name, value);
    IndentedLine(handler, START, indent, body, true);
    NotIndented(handler, START, body);
    IsPair(handler, START, body, indent != "");
    PairOf(handler, START, name, value);
    FirstLineOnly(LineStep(handler), indent + body + "\n");
  }

  lemma IsPair(handler: Handler, ctx: Context, body: string, indented: bool)
    requires ctx.prev == "" && body != "" && body[0] != ';' && body[0] != '#' && body[0] != '['
    ensures Classified(handler, ctx, body, indented) == PairLine(handler, ctx, body)
  {
  }

  lemma FirstLineOnly(step: Step, line: string)
    ensures After(step, [line], 1) == step(START, line, true).context
  {
    assert After(step, [line], 0) == START;
  }

  lemma BlankHasNoNul(indent: string)
    requires Blank(indent)
    ensures OneLine(indent)
  {
    forall c <- indent
      ensures c != '\0'
    {
    }
  }

  /** A line of 199 characters or more is read in pieces: the first 199 characters
      make a line of their own. */
  lemma LongLineIsCut(body: string, tail: string)
    requires '\n' !in body && |body| >= 199
    ensures Lines(body + tail) == [body[..199]] + Lines(body[199..] + tail)
  {
    var s := body + tail;
    ChunkIsFull(body, tail, 199);
    assert s[..199] == body[..199] && s[199..] == body[199..] + tail;
  }

  lemma {:induction false} ChunkIsFull(body: string, tail: string, limit: nat)
    requires '\n' !in body && |body| >= limit
    ensures ChunkLength(body + tail, limit) == limit
    decreases limit
  {
    if limit > 0 {
      var s := body + tail;
      assert s[0] == body[0] && s[1..] == body[1..] + tail;
      ChunkIsFull(body[1..], tail, limit - 1);
    }
  }

  /** Blank lines and comment lines change nothing, wherever they stand. */
  lemma IgnoredLine(handler: Handler, ctx: Context, indent: string, text: string, first: bool)
    requires Blank(indent) && OneLine(text) && (text == "" || text[0] == ';' || text[0] == '#')
    ensures Line(handler, ctx, indent + text + "\n", first) == Outcome(ctx, true)
  {
    var s := indent + text + "\n";
    assert !IsSpace(NUL) && !IsSpace(BOM[0]);
    CStringOfLine(s);
    assert s[0] != BOM[0] by {
      assert indent != "" ==> s[0] == indent[0] && indent[0] in indent;
    }
    assert |s| >= 3 ==> s[..3][0] == s[0];
    assert s[0..] == s;
    StripIndented(indent, text);
  }

  /** What is left of an ignored line is empty or still starts with its mark. */
  lemma StripIndented(indent: string, text: string)
    requires Blank(indent) && (text == "" || text[0] == ';' || text[0] == '#')
    ensures var t := LSkipped(RStripped(indent + text + "\n"));
            if text == "" then t == "" else t != "" && t[0] == text[0]
  {
    var s := indent + text + "\n";
    var body := RStripped(s);
    if text == "" {
      assert s == "" + (indent + "\n");
      forall i | 0 <= i < |s|
        ensures IsSpace(s[i])
      {
        assert i < |indent| ==> s[i] in indent;
      }
      RStrippedIs(s, "");
    } else {
      assert s[|indent|] == text[0] && !IsSpace(text[0]);
      assert |body| > |indent|;
      assert body == s[..|body|];
      var rest := body[|indent|..];
      assert body == indent + rest && rest[0] == text[0];
      BlankSkips(indent, rest);
    }
  }

  /** `=` or `:` at `i`, and no `;` behind white space before it. */
  predicate SeparatorAt(s: string, i: int) {
    0 <= i < |s| && (s[i] == '=' || s[i] == ':') && forall j :: 0 < j < i && s[j] == ';' ==> !White(s[j - 1])
  }

  lemma HasSeparatorIff(s: string)
    ensures HasSeparator(s) <==> exists i :: SeparatorAt(s, i)
  {
    if HasSeparator(s) {
      var n := Separator(s);
      forall j | 0 < j < n && s[j] == ';'
        ensures !White(s[j - 1])
      {
        assert !StopsAt(s, s[n], j);
      }
      assert SeparatorAt(s, n);
    }
    if i :| SeparatorAt(s, i) {
      FoundBefore(s, i);
    }
  }

  lemma FoundBefore(s: string, i: nat)
    requires SeparatorAt(s, i)
    ensures HasSeparator(s)
  {
    assert StopsAt(s, s[i], i);
    var n := Find(s, s[i], 0);
    assert n <= i && StopsAt(s, s[i], n) && !IsComment(s, n);
  }

  // The parts of any line with a separator.

  /** The separator is the first of its kind and stands before any comment; it is `:`
      only when every `=` stands behind a comment. */
  lemma SeparatorShape(s: string)
    requires HasSeparator(s)
    ensures var n := Separator(s);
            && SeparatorAt(s, n) && (forall i :: 0 <= i < n ==> s[i] != s[n])
            && (s[n] == ':' ==> forall i :: SeparatorAt(s, i) ==> s[i] == ':')
  {
    var n, eq := Separator(s), Find(s, '=', 0);
    forall i | 0 <= i < n
      ensures s[i] != s[n] && !IsComment(s, i)
    {
      assert !StopsAt(s, s[n], i);
    }
    if s[n] == ':' {
      assert eq < |s| ==> IsComment(s, eq);
      forall i | SeparatorAt(s, i)
        ensures s[i] == ':'
      {
        assert StopsAt(s, s[i], i);
      }
    }
  }

  /** The name is what stands before the separator, less white space at its end. */
  lemma NameShape(s: string)
    requires HasSeparator(s)
    ensures var n, name := Separator(s), NameOf(s);
            && name <= s[..n] && (name != "" ==> !White(name[|name| - 1]))
            && (forall i :: |name| <= i < n ==> White(s[i]))
  {
    var n, name := Separator(s), NameOf(s);
    forall i | |name| <= i < n
      ensures White(s[i])
    {
      assert s[..n][i] == s[i];
    }
  }

  /** What stands behind the separator is white space, then text `v` whose value ends
      with it or in front of a comment, less white space. */
  lemma ValueShape(s: string) returns (lo: nat, v: string, end: nat)
    requires HasSeparator(s) && '\0' !in s
    ensures Separator(s) < lo <= |s| && v == s[lo..] && (v != "" ==> !White(v[0]))
    ensures forall i :: Separator(s) < i < lo ==> White(s[i])
    ensures EndsAt(v, ValueOf(s), end)
  {
    var field := s[Separator(s) + 1..];
    v := LSkipped(field);
    lo := Separator(s) + 1 + Leading(field);
    end := Find(v, NUL, 0);
    forall i | Separator(s) < i < lo
      ensures White(s[i])
    {
      assert s[i] == field[i - Separator(s) - 1];
    }
    FieldEnds(v);
  }

  /** `value` is `v` up to `end`, the end of `v` or its first comment, less white
      space. */
  predicate EndsAt(v: string, value: string, end: nat) {
    && end <= |v| && value <= v[..end] && (value != "" ==> !White(value[|value| - 1]))
    && (forall i :: |value| <= i < end ==> White(v[i]))
    && (forall i :: 0 < i < end && v[i] == ';' ==> !White(v[i - 1]))
    && (end < |v| ==> end > 0 && v[end] == ';' && White(v[end - 1]))
  }

  lemma FieldEnds(v: string)
    requires '\0' !in v
    ensures EndsAt(v, RStripped(v[..Find(v, NUL, 0)]), Find(v, NUL, 0))
  {
    var end := Find(v, NUL, 0);
    var value := RStripped(v[..end]);
    forall i | |value| <= i < end
      ensures White(v[i])
    {
      assert v[..end][i] == v[i];
    }
    forall i | 0 < i < end && v[i] == ';'
      ensures !White(v[i - 1])
    {
      assert !StopsAt(v, NUL, i);
    }
    assert end < |v| ==> v[end] in v;
  }

  /** A line of text that is no comment, no section and no continuation is
      malformed exactly when neither `=` nor `:` stands in front of its first
      comment, and then it changes nothing; otherwise it makes one call, and the
      handler's answer is the verdict. */
  lemma MalformedIff(handler: Handler, ctx: Context, body: string, first: bool)
    requires OneLine(body) && Trimmed(body) && body[0] != ';' && body[0] != '#' && body[0] != '['
    requires first ==> body[0] != '\U{EF}'
    ensures var o := Line(handler, ctx, body + "\n", first);
            if exists i :: SeparatorAt(body, i) then
              && HasSeparator(body)
              && o.context.calls == ctx.calls + [Call(ctx.section, NameOf(body), ValueOf(body))]
              && o.ok == handler(o.context.calls)
            else o == Outcome(ctx, false)
  {
    NothingToSkip(body);
    PrintedLine(handler, ctx, body, first);
    HasSeparatorIff(body);
  }

  // ---- the number that is reported -------------------------------------------------------

  lemma {:induction false} AfterAppends(step: Step, a: seq<string>, b: seq<string>, k: nat)
    requires k <= |a|
    ensures After(step, a + b, k) == After(step, a, k)
    ensures k >= 1 ==> LineOk(step, a + b, k) == LineOk(step, a, k)
  {
    if k > 0 {
      AfterAppends(step, a, b, k - 1);
      assert (a + b)[k - 1] == a[k - 1];
    }
  }

  /** Whatever follows a printed configuration and one line without separator, the
      number of that line is the error reported. */
  lemma BadLineIsReported(config: seq<Section>, bad: string, tail: string, error: nat)
    requires GoodConfig(config) && config != []
    requires OneLine(bad) && Trimmed(bad) && Fits(bad) && bad[0] != ';' && bad[0] != '#' && bad[0] != '['
    requires !exists i :: SeparatorAt(bad, i)
    ensures IsFirstError(LineStep(ACCEPT), Lines(Print(config) + (bad + "\n" + tail)), error)
        <==> error == |ConfigLines(config)| + 1
  {
    var step, a := LineStep(ACCEPT), Terminated(ConfigLines(config));
    ConfigPrintable(config);
    LinesWithTail(ConfigLines(config), bad + "\n" + tail);
    GrammarUnderstands();
    ParseTerminated(step, config);
    FirstLine(bad, tail);
    MalformedIff(ACCEPT, After(step, a, |a|), bad, false);
    TerminatedLength(ConfigLines(config));
    OnlyThisError(step, a, bad + "\n", Lines(tail), error);
  }

  lemma {:induction false} TerminatedLength(bodies: seq<string>)
    ensures |Terminated(bodies)| == |bodies|
    decreases |bodies|
  {
    if bodies != [] { TerminatedLength(bodies[1..]); }
  }

  lemma OnlyThisError(step: Step, a: seq<string>, bad: string, c: seq<string>, error: nat)
    requires a != [] && IsFirstError(step, a, 0) && !step(After(step, a, |a|), bad, false).ok
    ensures IsFirstError(step, a + ([bad] + c), error) <==> error == |a| + 1
  {
    var b := [bad] + c;
    AfterAppends(step, a, b, |a|);
    assert (a + b)[|a|] == bad;
    forall k: nat | 1 <= k <= |a|
      ensures LineOk(step, a + b, k)
    {
      AfterAppends(step, a, b, k);
      assert LineOk(step, a, k);
    }
    FirstErrorIs(step, a + b, |a| + 1, error);
  }

  /** There is one first error. */
  lemma FirstErrorIs(step: Step, lines: seq<string>, n: nat, error: nat)
    requires 1 <= n <= |lines| && !LineOk(step, lines, n) && forall k: nat :: 1 <= k < n ==> LineOk(step, lines, k)
    ensures IsFirstError(step, lines, error) <==> error == n
  {
    if error != 0 && error < n {
      assert LineOk(step, lines, error);
    }
  }
}
