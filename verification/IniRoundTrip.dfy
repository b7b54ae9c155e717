/** Printing a configuration and reading it back. */
module IniRoundTrip {
  import opened IniGrammar
  import opened IniReader
  import opened Options

  /** A name with a value of one or more lines. */
  datatype Entry = Entry(name: string, first: string, more: seq<string>)

  datatype Section = Section(name: string, entries: seq<Entry>)

  // ---- what can be written -----------------------------------------------------------

  // These conditions are about single characters and lengths and do not refer to
  // the grammar.

  predicate White(c: char) {
    c == ' ' || '\t' <= c <= '\r'
  }

  predicate OneLine(s: string) {
    '\0' !in s && '\n' !in s
  }

  /** No `;` behind white space; one behind anything else, as in `a;b`, is fine. */
  predicate NoComment(s: string) {
    forall i :: 0 < i < |s| && s[i] == ';' ==> !White(s[i - 1])
  }

  /** Not empty, and no white space at either end. */
  predicate Trimmed(s: string) {
    s != "" && !White(s[0]) && !White(s[|s| - 1])
  }

  /** The line is read by one `fgets`. */
  predicate Fits(body: string) {
    |body| + 1 < 200
  }

  predicate SectionName(name: string) {
    OneLine(name) && NoComment(name) && ']' !in name
  }

  predicate GoodSection(name: string) {
    SectionName(name) && |name| < 50
  }

  predicate GoodName(name: string) {
    && OneLine(name) && NoComment(name) && Trimmed(name) && '=' !in name
    && name[0] != ';' && name[0] != '#' && name[0] != '['
  }

  predicate GoodFirst(value: string) {
    OneLine(value) && NoComment(value) && Trimmed(value)
  }

  predicate GoodMore(value: string) {
    OneLine(value) && Trimmed(value) && value[0] != ';' && value[0] != '#'
  }

  predicate GoodEntry(e: Entry) {
    && GoodName(e.name) && GoodFirst(e.first) && Fits(e.name + "=" + e.first)
    && (e.more != [] ==> |e.name| < 50)
    && forall v <- e.more :: GoodMore(v) && Fits(" " + v)
  }

  predicate GoodConfig(config: seq<Section>) {
    forall s <- config :: GoodSection(s.name) && forall e <- s.entries :: GoodEntry(e)
  }

  /** What a buffer of 50 characters keeps of a name. */
  function Cut(name: string): string {
    if |name| < 50 then name else name[..49]
  }

  lemma NotAComment(s: string, i: nat)
    requires NoComment(s) && i < |s|
    ensures !IsComment(s, i)
  {
  }

  // ---- printing ------------------------------------------------------------------------

  function Indented(values: seq<string>): seq<string> {
    if values == [] then [] else [" " + values[0]] + Indented(values[1..])
  }

  function EntryLines(entries: seq<Entry>): seq<string> {
    if entries == [] then []
    else [entries[0].name + "=" + entries[0].first] + Indented(entries[0].more) + EntryLines(entries[1..])
  }

  function ConfigLines(config: seq<Section>): seq<string> {
    if config == [] then []
    else ["[" + config[0].name + "]"] + EntryLines(config[0].entries) + ConfigLines(config[1..])
  }

  function Terminated(bodies: seq<string>): seq<string> {
    if bodies == [] then [] else [bodies[0] + "\n"] + Terminated(bodies[1..])
  }

  function Concat(lines: seq<string>): string {
    if lines == [] then "" else lines[0] + Concat(lines[1..])
  }

  function Print(config: seq<Section>): string {
    Concat(Terminated(ConfigLines(config)))
  }

  // ---- meaning -----------------------------------------------------------------------

  function Join(first: string, more: seq<string>): string
    decreases |more|
  {
    if more == [] then first else Join(first + "\n" + more[0], more[1..])
  }

  /** An entry and the section it stands in. */
  datatype Item = Item(section: string, entry: Entry)

  function SectionItems(section: string, entries: seq<Entry>): seq<Item> {
    if entries == [] then [] else [Item(section, entries[0])] + SectionItems(section, entries[1..])
  }

  function Items(config: seq<Section>): seq<Item> {
    if config == [] then [] else SectionItems(config[0].name, config[0].entries) + Items(config[1..])
  }

  function Key(item: Item): string {
    MakeKey(item.section, item.entry.name)
  }

  /** No two entries have the same section and name but for case. */
  predicate DistinctItems(items: seq<Item>) {
    forall i, j :: 0 <= i < j < |items| ==>
      !SameButCase(items[i].section + "." + items[i].entry.name, items[j].section + "." + items[j].entry.name)
  }

  predicate DistinctKeys(items: seq<Item>) {
    forall i, j :: 0 <= i < j < |items| ==> Key(items[i]) != Key(items[j])
  }

  lemma ItemsHaveKeys(items: seq<Item>)
    requires DistinctItems(items)
    ensures DistinctKeys(items)
  {
    forall i, j | 0 <= i < j < |items|
      ensures Key(items[i]) != Key(items[j])
    {
      KeyIgnoresCase(items[i].section, items[i].entry.name, items[j].section, items[j].entry.name);
    }
  }

  /** The lines of a text. */
  function SplitLines(s: string): (r: seq<string>)
    ensures r != []
  {
    if s == "" then [""] else InFront(s[0], SplitLines(s[1..]))
  }

  function InFront(c: char, lines: seq<string>): (r: seq<string>)
    requires lines != []
    ensures r != []
  {
    if c == '\n' then [""] + lines else [[c] + lines[0]] + lines[1..]
  }

  lemma InFrontAppends(c: char, a: seq<string>, b: seq<string>)
    requires a != []
    ensures InFront(c, a + b) == InFront(c, a) + b
  {
    assert (a + b)[0] == a[0] && (a + b)[1..] == a[1..] + b;
  }

  lemma {:induction false} SplitAtLineFeed(s: string, t: string)
    ensures SplitLines(s + "\n" + t) == SplitLines(s) + SplitLines(t)
    decreases |s|
  {
    var all := s + "\n" + t;
    if s == "" {
      assert all[0] == '\n' && all[1..] == t;
    } else {
      assert all[0] == s[0] && all[1..] == s[1..] + "\n" + t;
      SplitAtLineFeed(s[1..], t);
      InFrontAppends(s[0], SplitLines(s[1..]), SplitLines(t));
    }
  }

  lemma {:induction false} SplitOneLine(s: string)
    requires '\n' !in s
    ensures SplitLines(s) == [s]
    decreases |s|
  {
    if s != "" {
      SplitOneLine(s[1..]);
      assert [s[0]] + s[1..] == s;
    }
  }

  /** Nothing of a value of several lines is lost by joining them. */
  lemma {:induction false} JoinSplits(first: string, more: seq<string>)
    requires forall v <- more :: '\n' !in v
    ensures SplitLines(Join(first, more)) == SplitLines(first) + more
    decreases |more|
  {
    if more == [] {
      assert SplitLines(first) + [] == SplitLines(first);
    } else {
      assert more[0] in more;
      JoinSplits(first + "\n" + more[0], more[1..]);
      SplitAtLineFeed(first, more[0]);
      SplitOneLine(more[0]);
      assert SplitLines(first) + [more[0]] + more[1..] == SplitLines(first) + more;
    }
  }

  /** The map a configuration stands for. */
  function Meaning(items: seq<Item>): Values {
    if items == [] then map[]
    else Meaning(items[1..])[Key(items[0]) := Join(items[0].entry.first, items[0].entry.more)]
  }

  // ---- printed text splits into its lines -----------------------------------------------

  predicate Printable(body: string) {
    OneLine(body) && Fits(body)
  }

  lemma {:induction false} ChunkOfLine(body: string, tail: string, limit: nat)
    requires '\n' !in body && |body| < limit
    ensures ChunkLength(body + "\n" + tail, limit) == |body| + 1
    decreases |body|
  {
    var s := body + "\n" + tail;
    if body == "" {
      assert s[0] == '\n';
    } else {
      assert s[0] == body[0] && s[1..] == body[1..] + "\n" + tail;
      ChunkOfLine(body[1..], tail, limit - 1);
    }
  }

  lemma FirstLine(body: string, tail: string)
    requires '\n' !in body && |body| < 199
    ensures Lines(body + "\n" + tail) == [body + "\n"] + Lines(tail)
  {
    ChunkOfLine(body, tail, 199);
    var s := body + "\n" + tail;
    assert s[..|body| + 1] == body + "\n" && s[|body| + 1..] == tail;
  }

  /** The lines of a printed text and of whatever follows it. */
  lemma {:induction false} LinesWithTail(bodies: seq<string>, tail: string)
    requires forall b <- bodies :: Printable(b)
    ensures Lines(Concat(Terminated(bodies)) + tail) == Terminated(bodies) + Lines(tail)
    decreases |bodies|
  {
    if bodies == [] {
      assert "" + tail == tail && [] + Lines(tail) == Lines(tail);
    } else {
      assert bodies[0] in bodies;
      LinesWithTail(bodies[1..], tail);
      FirstOfConcat(bodies, tail);
      FirstLine(bodies[0], Concat(Terminated(bodies[1..])) + tail);
      assert [bodies[0] + "\n"] + (Terminated(bodies[1..]) + Lines(tail)) == Terminated(bodies) + Lines(tail);
    }
  }

  lemma FirstOfConcat(bodies: seq<string>, tail: string)
    requires bodies != []
    ensures Concat(Terminated(bodies)) + tail == bodies[0] + "\n" + (Concat(Terminated(bodies[1..])) + tail)
  {
    assert Terminated(bodies)[1..] == Terminated(bodies[1..]);
  }

  lemma LinesOfConcat(bodies: seq<string>)
    requires forall b <- bodies :: Printable(b)
    ensures Lines(Concat(Terminated(bodies))) == Terminated(bodies)
  {
    LinesWithTail(bodies, "");
    assert Concat(Terminated(bodies)) + "" == Concat(Terminated(bodies));
    assert Terminated(bodies) + [] == Terminated(bodies);
  }

  // ---- single lines -------------------------------------------------------------------

  lemma {:induction false} CStringOfLine(s: string)
    requires '\0' !in s
    ensures CString(s) == s
    decreases |s|
  {
    if s != "" {
      CStringOfLine(s[1..]);
    }
  }

  /** A line without space at its end is what `rstrip` leaves of the printed line. */
  lemma StrippedBody(body: string)
    requires OneLine(body) && body != "" && !IsSpace(body[|body| - 1])
    ensures CString(body + "\n") == body + "\n" && RStripped(body + "\n") == body
  {
    CStringOfLine(body + "\n");
    RStrippedIs(body + "\n", body);
  }

  /** A printed line reaches the classification without its line feed. */
  lemma PrintedLine(handler: Handler, ctx: Context, body: string, first: bool)
    requires OneLine(body) && body != "" && !IsSpace(body[|body| - 1])
    requires first ==> body[0] != BOM[0]
    ensures Line(handler, ctx, body + "\n", first)
         == Classified(handler, ctx, LSkipped(body), Leading(body) > 0)
  {
    StrippedBody(body);
    NoMark(body + "\n", first);
    LineIs(handler, ctx, body + "\n", first, body + "\n", body);
  }

  lemma NoMark(s: string, first: bool)
    requires s != "" && (first ==> s[0] != BOM[0])
    ensures BomLength(s, first) == 0
  {
    if first && |s| >= 3 {
      assert s[..3][0] == s[0];
    }
  }

  lemma LineIs(handler: Handler, ctx: Context, raw: string, first: bool, s: string, body: string)
    requires s == CString(raw) && BomLength(s, first) == 0 && body == RStripped(s)
    ensures Line(handler, ctx, raw, first) == Classified(handler, ctx, LSkipped(body), Leading(body) > 0)
  {
    assert s[0..] == s;
  }

  lemma NothingToSkip(s: string)
    requires s != "" && !IsSpace(s[0])
    ensures Leading(s) == 0 && LSkipped(s) == s
  {
  }

  /** The bytes EF BB BF in front of the first line have no meaning; nothing else is
      skipped there. */
  lemma MarkHasNoMeaning(handler: Handler, ctx: Context, body: string)
    requires OneLine(body) && Trimmed(body) && ctx.prev == ""
    ensures Line(handler, ctx, "\U{EF}\U{BB}\U{BF}" + body + "\n", true) == Line(handler, ctx, body + "\n", false)
  {
    var s := "\U{EF}\U{BB}\U{BF}" + body + "\n";
    CStringOfLine(s);
    MarkLength(body + "\n");
    assert s == "\U{EF}\U{BB}\U{BF}" + (body + "\n");
    StrippedBody(body);
    MarkedLine(handler, ctx, s, 3, body);
    NothingToSkip(body);
    PrintedLine(handler, ctx, body, false);
    NotIndented(handler, ctx, body);
  }

  lemma MarkLength(rest: string)
    ensures var s := "\U{EF}\U{BB}\U{BF}" + rest; BomLength(s, true) == 3 && s[3..] == rest
  {
    var s := "\U{EF}\U{BB}\U{BF}" + rest;
    assert s[..3] == BOM;
  }

  lemma MarkedLine(handler: Handler, ctx: Context, s: string, skip: nat, body: string)
    requires CString(s) == s && skip == BomLength(s, true) > 0 && RStripped(s[skip..]) == body
    ensures Line(handler, ctx, s, true) == Classified(handler, ctx, LSkipped(body), true)
  {
  }

  lemma NotIndented(handler: Handler, ctx: Context, s: string)
    requires ctx.prev == ""
    ensures Classified(handler, ctx, s, true) == Classified(handler, ctx, s, false)
  {
  }

  lemma FindBracket(name: string)
    requires SectionName(name)
    ensures Find(name + "]", ']', 0) == |name|
  {
    var s := name + "]";
    forall i | 0 <= i < |name|
      ensures !StopsAt(s, ']', i)
    {
      assert s[i] == name[i] && s[i] in name;
      NotAComment(name, i);
    }
    FindIs(s, ']', |name|);
  }

  lemma SectionHeader(handler: Handler, ctx: Context, name: string, first: bool)
    requires SectionName(name)
    ensures Line(handler, ctx, "[" + name + "]" + "\n", first)
         == Outcome(ctx.(section := Cut(name), prev := ""), true)
  {
    var t := "[" + name + "]";
    assert t[0] == '[' != BOM[0];
    NothingToSkip(t);
    PrintedLine(handler, ctx, t, first);
    assert t[1..] == name + "]";
    BracketLine(ctx, name);
  }

  lemma BracketLine(ctx: Context, name: string)
    requires SectionName(name)
    ensures SectionLine(ctx, name + "]") == Outcome(ctx.(section := Cut(name), prev := ""), true)
  {
    FindBracket(name);
    var s := name + "]";
    assert s[..|name|] == name && s[|name|] == ']';
  }

  lemma SeparatorOf(name: string, value: string)
    requires GoodName(name)
    ensures Separator(name + "=" + value) == |name|
  {
    var t := name + "=" + value;
    forall i | 0 <= i < |name|
      ensures !StopsAt(t, '=', i)
    {
      assert t[i] == name[i] && t[i] in name;
      NotAComment(name, i);
    }
    FindIs(t, '=', |name|);
  }

  lemma ValueOfFirst(value: string)
    requires GoodFirst(value)
    ensures LSkipped(value) == value && RStripped(value[..Find(value, NUL, 0)]) == value
  {
    forall i | 0 <= i < |value|
      ensures !StopsAt(value, NUL, i)
    {
      assert value[i] in value;
      NotAComment(value, i);
    }
    FindIs(value, NUL, |value|);
    RStrippedIs(value, value);
    assert value[..|value|] == value;
  }

  lemma PairOf(handler: Handler, ctx: Context, name: string, value: string)
    requires GoodName(name) && GoodFirst(value)
    ensures PairLine(handler, ctx, name + "=" + value)
         == CallHandler(handler, ctx.(prev := Cut(name)), Call(ctx.section, name, value))
  {
    var t := name + "=" + value;
    SeparatorOf(name, value);
    assert t[..|name|] == name && t[|name|] == '=' && t[|name| + 1..] == value;
    RStrippedIs(name, name);
    ValueOfFirst(value);
  }

  lemma PairIsTrimmed(name: string, value: string)
    requires OneLine(name) && Trimmed(name) && OneLine(value) && Trimmed(value)
    ensures OneLine(name + "=" + value) && Trimmed(name + "=" + value)
  {
    var t := name + "=" + value;
    assert t[0] == name[0] && t[|t| - 1] == value[|value| - 1];
  }

  lemma EntryLine(handler: Handler, ctx: Context, name: string, value: string)
    requires GoodName(name) && GoodFirst(value)
    ensures Line(handler, ctx, name + "=" + value + "\n", false)
         == CallHandler(handler, ctx.(prev := Cut(name)), Call(ctx.section, name, value))
  {
    var t := name + "=" + value;
    PairIsTrimmed(name, value);
    NothingToSkip(t);
    PrintedLine(handler, ctx, t, false);
    PairOf(handler, ctx, name, value);
  }

  lemma ContinuationLine(handler: Handler, ctx: Context, value: string)
    requires GoodMore(value) && ctx.prev != ""
    ensures Line(handler, ctx, " " + value + "\n", false)
         == CallHandler(handler, ctx, Call(ctx.section, ctx.prev, value))
  {
    var t := " " + value;
    assert t[|t| - 1] == value[|value| - 1];
    PrintedLine(handler, ctx, t, false);
    NothingToSkip(value);
    assert t[1..] == value && Leading(t) == 1 && LSkipped(t) == value;
  }

  // ---- whole configurations ---------------------------------------------------------

  /** The context after feeding `lines` to the grammar, starting from `ctx`. */
  function Feed(step: Step, ctx: Context, lines: seq<string>, first: bool): Context
    decreases |lines|
  {
    if lines == [] then ctx else Feed(step, step(ctx, lines[0], first).context, lines[1..], false)
  }

  predicate AllFine(step: Step, ctx: Context, lines: seq<string>, first: bool)
    decreases |lines|
  {
    lines == [] || (step(ctx, lines[0], first).ok && AllFine(step, step(ctx, lines[0], first).context, lines[1..], false))
  }

  /** Feeding from the left is the same as counting lines from the start. */
  lemma {:induction false} FeedFrom(step: Step, lines: seq<string>, k: nat)
    requires k <= |lines|
    ensures Feed(step, After(step, lines, k), lines[k..], k == 0) == After(step, lines, |lines|)
    ensures AllFine(step, After(step, lines, k), lines[k..], k == 0) ==>
              forall j: nat :: k < j <= |lines| ==> LineOk(step, lines, j)
    decreases |lines| - k
  {
    if k < |lines| {
      assert lines[k..][0] == lines[k] && lines[k..][1..] == lines[k + 1..];
      FeedFrom(step, lines, k + 1);
      assert LineOk(step, lines, k + 1) == step(After(step, lines, k), lines[k], k == 0).ok;
    }
  }

  lemma {:induction false} FeedAppends(step: Step, ctx: Context, a: seq<string>, b: seq<string>, first: bool)
    requires a != [] || !first
    ensures Feed(step, ctx, a + b, first) == Feed(step, Feed(step, ctx, a, first), b, false)
    ensures AllFine(step, ctx, a + b, first)
        <==> AllFine(step, ctx, a, first) && AllFine(step, Feed(step, ctx, a, first), b, false)
    decreases |a|
  {
    if a == [] {
      assert [] + b == b;
    } else {
      assert (a + b)[0] == a[0] && (a + b)[1..] == a[1..] + b;
      FeedAppends(step, step(ctx, a[0], first).context, a[1..], b, false);
    }
  }

  lemma {:induction false} TerminatedAppends(a: seq<string>, b: seq<string>)
    ensures Terminated(a + b) == Terminated(a) + Terminated(b)
    decreases |a|
  {
    if a == [] {
      assert [] + b == b && [] + Terminated(b) == Terminated(b);
    } else {
      assert (a + b)[0] == a[0] && (a + b)[1..] == a[1..] + b;
      TerminatedAppends(a[1..], b);
    }
  }

  // the calls that a configuration makes

  function MoreCalls(section: string, name: string, values: seq<string>): seq<Call> {
    if values == [] then [] else [Call(section, name, values[0])] + MoreCalls(section, name, values[1..])
  }

  function EntryCalls(item: Item): seq<Call> {
    [Call(item.section, item.entry.name, item.entry.first)]
    + MoreCalls(item.section, item.entry.name, item.entry.more)
  }

  function ItemCalls(items: seq<Item>): seq<Call> {
    if items == [] then [] else EntryCalls(items[0]) + ItemCalls(items[1..])
  }

  /** What the printed lines do, one kind of line at a time. */
  ghost predicate Understands(step: Step) {
    && (forall ctx, name, first | GoodSection(name) ::
          step(ctx, "[" + name + "]" + "\n", first) == Outcome(ctx.(section := name, prev := ""), true))
    && (forall ctx, name, value | GoodName(name) && GoodFirst(value) ::
          step(ctx, name + "=" + value + "\n", false)
          == Made(ctx.(prev := Cut(name)), Call(ctx.section, name, value)))
    && (forall ctx: Context, value | GoodMore(value) && ctx.prev != "" ::
          step(ctx, " " + value + "\n", false) == Made(ctx, Call(ctx.section, ctx.prev, value)))
  }

  function Made(ctx: Context, call: Call): Outcome {
    Outcome(ctx.(calls := ctx.calls + [call]), true)
  }

  lemma GrammarUnderstands()
    ensures Understands(LineStep(ACCEPT))
  {
    var step := LineStep(ACCEPT);
    forall ctx, name, first | GoodSection(name)
      ensures step(ctx, "[" + name + "]" + "\n", first) == Outcome(ctx.(section := name, prev := ""), true)
    {
      SectionHeader(ACCEPT, ctx, name, first);
    }
    forall ctx, name, value | GoodName(name) && GoodFirst(value)
      ensures step(ctx, name + "=" + value + "\n", false)
           == Made(ctx.(prev := Cut(name)), Call(ctx.section, name, value))
    {
      EntryLine(ACCEPT, ctx, name, value);
    }
    forall ctx: Context, value | GoodMore(value) && ctx.prev != ""
      ensures step(ctx, " " + value + "\n", false) == Made(ctx, Call(ctx.section, ctx.prev, value))
    {
      ContinuationLine(ACCEPT, ctx, value);
    }
  }

  /** Feeding `bodies` is fine, makes `calls` and leaves the section as it is. */
  ghost predicate Makes(step: Step, ctx: Context, bodies: seq<string>, calls: seq<Call>) {
    var lines := Terminated(bodies);
    var end := Feed(step, ctx, lines, false);
    AllFine(step, ctx, lines, false) && end.calls == ctx.calls + calls && end.section == ctx.section
  }

  lemma MakesNothing(step: Step, ctx: Context)
    ensures Makes(step, ctx, [], [])
  {
    assert ctx.calls + [] == ctx.calls;
  }

  /** A line in front of others. */
  lemma MakesFirst(step: Step, ctx: Context, next: Context, body: string, call: Call,
                   bodies: seq<string>, calls: seq<Call>)
    requires step(ctx, body + "\n", false) == Made(next, call) && next.calls == ctx.calls && next.section == ctx.section
    requires Makes(step, Made(next, call).context, bodies, calls)
    ensures Makes(step, ctx, [body] + bodies, [call] + calls)
  {
    var all := [body] + bodies;
    assert all[1..] == bodies;
    assert Terminated(all)[0] == body + "\n" && Terminated(all)[1..] == Terminated(bodies);
    assert ctx.calls + [call] + calls == ctx.calls + ([call] + calls);
  }

  lemma {:induction false} IndentedMakes(step: Step, ctx: Context, values: seq<string>)
    requires Understands(step) && forall v <- values :: GoodMore(v)
    requires values != [] ==> ctx.prev != ""
    ensures Makes(step, ctx, Indented(values), MoreCalls(ctx.section, ctx.prev, values))
    decreases |values|
  {
    if values == [] {
      MakesNothing(step, ctx);
    } else {
      var call := Call(ctx.section, ctx.prev, values[0]);
      IndentedMakes(step, Made(ctx, call).context, values[1..]);
      MakesFirst(step, ctx, ctx, " " + values[0], call, Indented(values[1..]),
                 MoreCalls(ctx.section, ctx.prev, values[1..]));
    }
  }

  /** Continuation lines make their calls under the name, or under its first 49
      characters if it has more. */
  lemma TruncatedNameMakes(step: Step, ctx: Context, e: Entry)
    requires Understands(step) && GoodName(e.name) && GoodFirst(e.first) && forall v <- e.more :: GoodMore(v)
    ensures Makes(step, ctx, [e.name + "=" + e.first] + Indented(e.more),
                  [Call(ctx.section, e.name, e.first)]
                  + MoreCalls(ctx.section, Cut(e.name), e.more))
  {
    var call, next := Call(ctx.section, e.name, e.first), ctx.(prev := Cut(e.name));
    IndentedMakes(step, Made(next, call).context, e.more);
    MakesFirst(step, ctx, next, e.name + "=" + e.first, call, Indented(e.more),
               MoreCalls(ctx.section, Cut(e.name), e.more));
  }

  lemma EntryMakes(step: Step, ctx: Context, e: Entry)
    requires Understands(step) && GoodEntry(e)
    ensures Makes(step, ctx, [e.name + "=" + e.first] + Indented(e.more), EntryCalls(Item(ctx.section, e)))
  {
    TruncatedNameMakes(step, ctx, e);
    assert MoreCalls(ctx.section, Cut(e.name), e.more) == MoreCalls(ctx.section, e.name, e.more);
  }

  lemma MakesAppends(step: Step, ctx: Context, a: seq<string>, ca: seq<Call>, b: seq<string>, cb: seq<Call>)
    requires Makes(step, ctx, a, ca)
    requires Makes(step, Feed(step, ctx, Terminated(a), false), b, cb)
    ensures Makes(step, ctx, a + b, ca + cb)
  {
    TerminatedAppends(a, b);
    FeedAppends(step, ctx, Terminated(a), Terminated(b), false);
    assert ctx.calls + ca + cb == ctx.calls + (ca + cb);
  }

  lemma {:induction false} EntriesMake(step: Step, ctx: Context, entries: seq<Entry>)
    requires Understands(step) && forall e <- entries :: GoodEntry(e)
    ensures Makes(step, ctx, EntryLines(entries), ItemCalls(SectionItems(ctx.section, entries)))
    decreases |entries|
  {
    if entries == [] {
      MakesNothing(step, ctx);
    } else {
      var e, more := entries[0], entries[1..];
      var a := [e.name + "=" + e.first] + Indented(e.more);
      EntryMakes(step, ctx, e);
      EntriesMake(step, Feed(step, ctx, Terminated(a), false), more);
      MakesAppends(step, ctx, a, EntryCalls(Item(ctx.section, e)), EntryLines(more),
                   ItemCalls(SectionItems(ctx.section, more)));
      assert SectionItems(ctx.section, entries)[1..] == SectionItems(ctx.section, more);
    }
  }

  lemma {:induction false} ItemCallsAppend(a: seq<Item>, b: seq<Item>)
    ensures ItemCalls(a + b) == ItemCalls(a) + ItemCalls(b)
    decreases |a|
  {
    if a == [] {
      assert [] + b == b && [] + ItemCalls(b) == ItemCalls(b);
    } else {
      assert (a + b)[0] == a[0] && (a + b)[1..] == a[1..] + b;
      ItemCallsAppend(a[1..], b);
    }
  }

  /** Feeding `bodies`, possibly from the first line on, is fine and makes `calls`. */
  ghost predicate Opens(step: Step, ctx: Context, bodies: seq<string>, calls: seq<Call>, first: bool) {
    var lines := Terminated(bodies);
    AllFine(step, ctx, lines, first) && Feed(step, ctx, lines, first).calls == ctx.calls + calls
  }

  lemma OpensAppends(step: Step, ctx: Context, a: seq<string>, ca: seq<Call>, b: seq<string>, cb: seq<Call>, first: bool)
    requires a != [] && Opens(step, ctx, a, ca, first)
    requires Opens(step, Feed(step, ctx, Terminated(a), first), b, cb, false)
    ensures Opens(step, ctx, a + b, ca + cb, first)
  {
    TerminatedAppends(a, b);
    FeedAppends(step, ctx, Terminated(a), Terminated(b), first);
    assert ctx.calls + ca + cb == ctx.calls + (ca + cb);
  }

  /** One section: its header, then its entries. */
  lemma SectionOpens(step: Step, ctx: Context, s: Section, first: bool)
    requires Understands(step) && GoodSection(s.name) && forall e <- s.entries :: GoodEntry(e)
    ensures Opens(step, ctx, ["[" + s.name + "]"] + EntryLines(s.entries),
                  ItemCalls(SectionItems(s.name, s.entries)), first)
  {
    var head := "[" + s.name + "]";
    EntriesMake(step, ctx.(section := s.name, prev := ""), s.entries);
    var bodies := [head] + EntryLines(s.entries);
    assert bodies[1..] == EntryLines(s.entries);
    assert Terminated(bodies)[0] == head + "\n" && Terminated(bodies)[1..] == Terminated(EntryLines(s.entries));
  }

  lemma {:induction false} ConfigOpens(step: Step, ctx: Context, config: seq<Section>, first: bool)
    requires Understands(step) && GoodConfig(config)
    ensures Opens(step, ctx, ConfigLines(config), ItemCalls(Items(config)), first)
    decreases |config|
  {
    if config == [] {
      assert ctx.calls + [] == ctx.calls;
    } else {
      var s, more := config[0], config[1..];
      var a := ["[" + s.name + "]"] + EntryLines(s.entries);
      var items := SectionItems(s.name, s.entries);
      SectionOpens(step, ctx, s, first);
      ConfigOpens(step, Feed(step, ctx, Terminated(a), first), more, false);
      OpensAppends(step, ctx, a, ItemCalls(items), ConfigLines(more), ItemCalls(Items(more)), first);
      ItemCallsAppend(items, Items(more));
    }
  }

  // ---- the printed text is readable ----------------------------------------------------

  lemma {:induction false} IndentedPrintable(values: seq<string>)
    requires forall v <- values :: GoodMore(v) && Fits(" " + v)
    ensures forall b <- Indented(values) :: Printable(b)
    decreases |values|
  {
    if values != [] { IndentedPrintable(values[1..]); }
  }

  lemma {:induction false} EntriesPrintable(entries: seq<Entry>)
    requires forall e <- entries :: GoodEntry(e)
    ensures forall b <- EntryLines(entries) :: Printable(b)
    decreases |entries|
  {
    if entries != [] {
      assert GoodEntry(entries[0]);
      IndentedPrintable(entries[0].more);
      EntriesPrintable(entries[1..]);
      assert Printable(entries[0].name + "=" + entries[0].first);
    }
  }

  lemma {:induction false} ConfigPrintable(config: seq<Section>)
    requires GoodConfig(config)
    ensures forall b <- ConfigLines(config) :: Printable(b)
    decreases |config|
  {
    if config != [] {
      EntriesPrintable(config[0].entries);
      ConfigPrintable(config[1..]);
    }
  }

  // ---- the calls store the meaning -----------------------------------------------------

  lemma {:induction false} MoreStored(values: Values, section: string, name: string, first: string, more: seq<string>)
    requires MakeKey(section, name) in values && values[MakeKey(section, name)] == first && first != ""
    ensures StoredAll(values, MoreCalls(section, name, more)) == values[MakeKey(section, name) := Join(first, more)]
    decreases |more|
  {
    var key := MakeKey(section, name);
    if more == [] {
      assert values == values[key := first];
    } else {
      var calls := MoreCalls(section, name, more);
      var next := values[key := first + "\n" + more[0]];
      assert calls[0] == Call(section, name, more[0]) && calls[1..] == MoreCalls(section, name, more[1..]);
      assert Stored(values, calls[0]) == next;
      MoreStored(next, section, name, first + "\n" + more[0], more[1..]);
    }
  }

  lemma ItemStored(values: Values, item: Item)
    requires Key(item) !in values && item.entry.first != ""
    ensures StoredAll(values, EntryCalls(item)) == values[Key(item) := Join(item.entry.first, item.entry.more)]
  {
    var e, calls := item.entry, EntryCalls(item);
    var next := Stored(values, calls[0]);
    assert next == values[Key(item) := e.first];
    assert calls[1..] == MoreCalls(item.section, e.name, e.more);
    MoreStored(next, item.section, e.name, e.first, e.more);
  }

  lemma {:induction false} ItemsStored(values: Values, items: seq<Item>)
    requires DistinctKeys(items)
    requires forall it <- items :: Key(it) !in values && it.entry.first != ""
    ensures StoredAll(values, ItemCalls(items)) == values + Meaning(items)
    decreases |items|
  {
    if items == [] {
      assert values + map[] == values;
    } else {
      var it, more := items[0], items[1..];
      var value := Join(it.entry.first, it.entry.more);
      var next := values[Key(it) := value];
      assert it in items;
      ItemStored(values, it);
      StoredAllAppends(values, EntryCalls(it), ItemCalls(more));
      RestIsNew(values, next, items);
      ItemsStored(next, more);
      AddedInFront(values, Key(it), value, Meaning(more));
    }
  }

  lemma AddedInFront(values: Values, key: string, value: string, m: Values)
    requires key !in m
    ensures values[key := value] + m == values + m[key := value]
  {
  }

  lemma RestIsNew(values: Values, next: Values, items: seq<Item>)
    requires items != [] && DistinctKeys(items) && next.Keys == values.Keys + {Key(items[0])}
    requires forall it <- items :: Key(it) !in values && it.entry.first != ""
    ensures DistinctKeys(items[1..]) && Key(items[0]) !in Meaning(items[1..])
    ensures forall it <- items[1..] :: Key(it) !in next && it.entry.first != ""
  {
    var more := items[1..];
    forall it <- more
      ensures Key(it) !in next && it.entry.first != ""
    {
      var j :| 0 <= j < |more| && more[j] == it;
      assert items[j + 1] == it;
    }
    MeaningKeys(more);
    forall i | 0 <= i < |more|
      ensures Key(more[i]) != Key(items[0])
    {
      assert more[i] == items[i + 1];
    }
  }

  lemma {:induction false} MeaningKeys(items: seq<Item>)
    ensures forall k :: k in Meaning(items) <==> exists i :: 0 <= i < |items| && Key(items[i]) == k
    decreases |items|
  {
    if items != [] {
      MeaningKeys(items[1..]);
      forall k | k in Meaning(items[1..])
        ensures exists i :: 0 <= i < |items| && Key(items[i]) == k
      {
        var i :| 0 <= i < |items| - 1 && Key(items[1..][i]) == k;
        assert Key(items[i + 1]) == k;
      }
      forall i | 0 <= i < |items|
        ensures Key(items[i]) in Meaning(items)
      {
        if i > 0 { assert Key(items[1..][i - 1]) in Meaning(items[1..]); }
      }
    }
  }

  lemma {:induction false} ItemsGood(config: seq<Section>)
    requires GoodConfig(config)
    ensures forall it <- Items(config) :: GoodEntry(it.entry)
    decreases |config|
  {
    if config != [] {
      SectionItemsGood(config[0].name, config[0].entries);
      ItemsGood(config[1..]);
    }
  }

  lemma {:induction false} SectionItemsGood(section: string, entries: seq<Entry>)
    requires forall e <- entries :: GoodEntry(e)
    ensures forall it <- SectionItems(section, entries) :: GoodEntry(it.entry)
    decreases |entries|
  {
    if entries != [] { SectionItemsGood(section, entries[1..]); }
  }

  // ---- names that are too long for continuation lines -------------------------------------

  /** With 50 characters or more the first line is stored alone, and the others under
      a name of their own. */
  lemma LongNameStored(values: Values, section: string, e: Entry)
    requires |e.name| >= 50 && e.first != "" && e.more != [] && e.more[0] != ""
    requires var name := Cut(e.name);
             MakeKey(section, e.name) !in values && MakeKey(section, name) !in values
    ensures var name := Cut(e.name);
            && MakeKey(section, name) != MakeKey(section, e.name)
            && StoredAll(values, [Call(section, e.name, e.first)] + MoreCalls(section, name, e.more))
               == values[MakeKey(section, e.name) := e.first][MakeKey(section, name) := Join(e.more[0], e.more[1..])]
  {
    var name := Cut(e.name);
    var calls := MoreCalls(section, name, e.more);
    var first := values[MakeKey(section, e.name) := e.first];
    assert |MakeKey(section, name)| < |MakeKey(section, e.name)|;
    assert ([Call(section, e.name, e.first)] + calls)[1..] == calls;
    assert Stored(values, Call(section, e.name, e.first)) == first;
    assert calls[0] == Call(section, name, e.more[0]) && calls[1..] == MoreCalls(section, name, e.more[1..]);
    assert Stored(first, calls[0]) == first[MakeKey(section, name) := e.more[0]];
    MoreStored(Stored(first, calls[0]), section, name, e.more[0], e.more[1..]);
  }

  // ---- main result ------------------------------------------------------------------

  /** Printing a configuration and parsing the text reports no error and stores
      exactly the map the configuration stands for. */
  lemma PrintThenParse(config: seq<Section>)
    requires GoodConfig(config) && DistinctItems(Items(config))
    ensures var step, lines := LineStep(ACCEPT), Lines(Print(config));
            && IsFirstError(step, lines, 0)
            && StoredAll(map[], After(step, lines, |lines|).calls) == Meaning(Items(config))
  {
    ConfigPrintable(config);
    LinesOfConcat(ConfigLines(config));
    GrammarUnderstands();
    ParseTerminated(LineStep(ACCEPT), config);
    ItemsHaveKeys(Items(config));
    StoredMeaning(config);
  }

  lemma StoredMeaning(config: seq<Section>)
    requires GoodConfig(config) && DistinctKeys(Items(config))
    ensures StoredAll(map[], ItemCalls(Items(config))) == Meaning(Items(config))
  {
    ItemsGood(config);
    ItemsStored(map[], Items(config));
    assert map[] + Meaning(Items(config)) == Meaning(Items(config));
  }

  lemma ParseTerminated(step: Step, config: seq<Section>)
    requires Understands(step) && GoodConfig(config)
    ensures var lines := Terminated(ConfigLines(config));
            && IsFirstError(step, lines, 0)
            && After(step, lines, |lines|).calls == ItemCalls(Items(config))
  {
    var lines := Terminated(ConfigLines(config));
    ConfigOpens(step, START, config, true);
    assert lines[0..] == lines;
    FeedFrom(step, lines, 0);
    assert [] + ItemCalls(Items(config)) == ItemCalls(Items(config));
  }

  /** The same for a text that starts with the bytes EF BB BF. */
  lemma MarkedThenParse(config: seq<Section>)
    requires config != [] && GoodConfig(config) && DistinctItems(Items(config))
    ensures var step, lines := LineStep(ACCEPT), Lines("\U{EF}\U{BB}\U{BF}" + Print(config));
            && IsFirstError(step, lines, 0)
            && StoredAll(map[], After(step, lines, |lines|).calls) == Meaning(Items(config))
  {
    var step, plain := LineStep(ACCEPT), Terminated(ConfigLines(config));
    var lines := ["\U{EF}\U{BB}\U{BF}" + plain[0]] + plain[1..];
    ConfigPrintable(config);
    MarkedLines(config);
    GrammarUnderstands();
    MarkedHeader(START, config[0].name);
    ConfigOpens(step, START, config, true);
    SameRest(step, plain, lines);
    assert [] + ItemCalls(Items(config)) == ItemCalls(Items(config));
    ItemsHaveKeys(Items(config));
    StoredMeaning(config);
  }

  lemma MarkedLines(config: seq<Section>)
    requires config != [] && GoodSection(config[0].name) && forall b <- ConfigLines(config) :: Printable(b)
    ensures var plain := Terminated(ConfigLines(config));
            plain != [] && plain[0] == "[" + config[0].name + "]" + "\n"
            && Lines("\U{EF}\U{BB}\U{BF}" + Print(config)) == ["\U{EF}\U{BB}\U{BF}" + plain[0]] + plain[1..]
  {
    var bodies := ConfigLines(config);
    var tail := Concat(Terminated(bodies[1..]));
    assert bodies[0] == "[" + config[0].name + "]";
    assert forall b <- bodies[1..] :: b in bodies;
    LinesOfConcat(bodies[1..]);
    assert Terminated(bodies)[1..] == Terminated(bodies[1..]);
    assert Print(config) == bodies[0] + "\n" + tail;
    FirstLineOf("\U{EF}\U{BB}\U{BF}", bodies[0], tail);
  }

  lemma FirstLineOf(mark: string, body: string, tail: string)
    requires '\n' !in mark && '\n' !in body && |mark| + |body| < 199
    ensures Lines(mark + (body + "\n" + tail)) == [mark + (body + "\n")] + Lines(tail)
  {
    FirstLine(mark + body, tail);
    assert mark + (body + "\n" + tail) == (mark + body) + "\n" + tail;
    assert mark + (body + "\n") == (mark + body) + "\n";
  }

  /** The mark makes no difference to a header at the start. */
  lemma MarkedHeader(ctx: Context, name: string)
    requires GoodSection(name) && ctx.prev == ""
    ensures var line := "[" + name + "]" + "\n";
            Line(ACCEPT, ctx, "\U{EF}\U{BB}\U{BF}" + line, true) == Line(ACCEPT, ctx, line, true)
  {
    var body := "[" + name + "]";
    BracketsAreTrimmed(name);
    SectionHeader(ACCEPT, ctx, name, true);
    SectionHeader(ACCEPT, ctx, name, false);
    MarkHasNoMeaning(ACCEPT, ctx, body);
    MarkThen("\U{EF}\U{BB}\U{BF}", body);
  }

  lemma BracketsAreTrimmed(name: string)
    requires OneLine(name)
    ensures OneLine("[" + name + "]") && Trimmed("[" + name + "]")
  {
  }

  lemma MarkThen(mark: string, body: string)
    ensures mark + body + "\n" == mark + (body + "\n")
  {
  }

  /** Files that differ in their first line only, which does the same. */
  lemma SameRest(step: Step, a: seq<string>, b: seq<string>)
    requires |a| == |b| > 0 && a[1..] == b[1..] && step(START, a[0], true) == step(START, b[0], true)
    requires AllFine(step, START, a, true)
    ensures IsFirstError(step, b, 0)
    ensures After(step, b, |b|).calls == Feed(step, START, a, true).calls
  {
    assert b[0..] == b;
    FeedFrom(step, b, 0);
  }

  /** With distinct keys the map holds every entry with its lines joined. */
  lemma {:induction false} MeaningAt(items: seq<Item>, i: nat)
    requires DistinctKeys(items) && i < |items|
    ensures Key(items[i]) in Meaning(items)
    ensures Meaning(items)[Key(items[i])] == Join(items[i].entry.first, items[i].entry.more)
    decreases |items|
  {
    if i > 0 {
      assert items[1..][i - 1] == items[i];
      assert Key(items[0]) != Key(items[i]);
      MeaningAt(items[1..], i - 1);
    }
  }

  /** A reader that has read printed text reports no error and answers every entry
      with its value, whatever the case in which section and name are asked for; the
      lines of the value are those of the entry. */
  method ReadBack(config: seq<Section>, item: Item, section: string, name: string, default: string)
    returns (reader: INIReader, value: string)
    requires GoodConfig(config) && DistinctItems(Items(config)) && item in Items(config)
    requires SameButCase(section, item.section) && SameButCase(name, item.entry.name)
    ensures fresh(reader) && reader.HasRead(Print(config)) && reader.error == 0
    ensures value == reader.Get(section, name, default)
    ensures SplitLines(value) == [item.entry.first] + item.entry.more
    ensures item.entry.more == [] ==> value == item.entry.first
  {
    reader := new INIReader(Some(Print(config)));
    PrintThenParse(config);
    Answers(config, reader.values, item, section, name);
    value := reader.Get(section, name, default);
    ValueLines(config, item);
  }

  lemma ValueLines(config: seq<Section>, item: Item)
    requires GoodConfig(config) && item in Items(config)
    ensures SplitLines(Join(item.entry.first, item.entry.more)) == [item.entry.first] + item.entry.more
  {
    ItemsGood(config);
    SplitOneLine(item.entry.first);
    JoinSplits(item.entry.first, item.entry.more);
  }

  /** The map of a printed configuration at any spelling of an entry's key. */
  lemma Answers(config: seq<Section>, values: Values, item: Item, section: string, name: string)
    requires DistinctItems(Items(config)) && item in Items(config) && values == Meaning(Items(config))
    requires SameButCase(section, item.section) && SameButCase(name, item.entry.name)
    ensures var key := MakeKey(section, name);
            key in values && values[key] == Join(item.entry.first, item.entry.more)
  {
    SameParts(section, name, item.section, item.entry.name);
    KeyIgnoresCase(section, name, item.section, item.entry.name);
    ItemsHaveKeys(Items(config));
    var items := Items(config);
    var i :| 0 <= i < |items| && items[i] == item;
    MeaningAt(items, i);
  }

  /** A name that the printed text does not have gets the default. */
  method ReadMissing(config: seq<Section>, section: string, name: string, default: string)
    returns (reader: INIReader, value: string)
    requires GoodConfig(config) && DistinctItems(Items(config))
    requires forall it <- Items(config) :: !SameButCase(section + "." + name, it.section + "." + it.entry.name)
    ensures fresh(reader) && reader.HasRead(Print(config))
    ensures value == reader.Get(section, name, default) == default
  {
    reader := new INIReader(Some(Print(config)));
    PrintThenParse(config);
    NotStored(Items(config), section, name);
    value := reader.Get(section, name, default);
  }

  lemma NotStored(items: seq<Item>, section: string, name: string)
    requires forall it <- items :: !SameButCase(section + "." + name, it.section + "." + it.entry.name)
    ensures MakeKey(section, name) !in Meaning(items)
  {
    MeaningKeys(items);
    forall i | 0 <= i < |items|
      ensures Key(items[i]) != MakeKey(section, name)
    {
      assert items[i] in items;
      KeyIgnoresCase(section, name, items[i].section, items[i].entry.name);
    }
  }

  predicate SpellsTrue(s: string) {
    SameButCase(s, "true") || SameButCase(s, "yes") || SameButCase(s, "on") || SameButCase(s, "1")
  }

  predicate SpellsFalse(s: string) {
    SameButCase(s, "false") || SameButCase(s, "no") || SameButCase(s, "off") || SameButCase(s, "0")
  }

  lemma SpellingIff(s: string)
    ensures IsTrue(Lower(s)) <==> SpellsTrue(s)
    ensures IsFalse(Lower(s)) <==> SpellsFalse(s)
  {
    IsSpelled(s, "true");
    IsSpelled(s, "yes");
    IsSpelled(s, "on");
    IsSpelled(s, "1");
    IsSpelled(s, "false");
    IsSpelled(s, "no");
    IsSpelled(s, "off");
    IsSpelled(s, "0");
  }

  lemma IsSpelled(s: string, word: string)
    requires forall c <- word :: !('A' <= c <= 'Z')
    ensures Lower(s) == word <==> SameButCase(s, word)
  {
    forall i | 0 <= i < |word|
      ensures Lower(word)[i] == word[i]
    {
      assert word[i] in word;
    }
    assert Lower(word) == word;
    LowerIff(s, word);
  }

  /** The eight spellings of a truth value read back as it, in any case; any other
      value gives the default. */
  method ReadBooleanBack(config: seq<Section>, item: Item, default: bool) returns (reader: INIReader, value: bool)
    requires GoodConfig(config) && DistinctItems(Items(config)) && item in Items(config)
    requires item.entry.more == []
    ensures fresh(reader) && reader.HasRead(Print(config)) && reader.error == 0
    ensures value == reader.GetBoolean(item.section, item.entry.name, default)
    ensures SpellsTrue(item.entry.first) ==> value
    ensures SpellsFalse(item.entry.first) ==> !value
    ensures !SpellsTrue(item.entry.first) && !SpellsFalse(item.entry.first) ==> value == default
  {
    var text;
    reader, text := ReadBack(config, item, item.section, item.entry.name, "");
    SpellingIff(item.entry.first);
    value := reader.GetBoolean(item.section, item.entry.name, default);
  }
}
