/** The line grammar of the INI parser, on strings without NUL. */
module IniGrammar {

  /** `isspace` in the C locale. */
  predicate IsSpace(c: char) {
    c == ' ' || '\t' <= c <= '\r'
  }

  const NUL := '\0'
  const INI_MAX_LINE := 200
  const MAX_SECTION := 50
  const MAX_NAME := 50

  /** The bytes EF BB BF. */
  const BOM: string := ['\U{EF}', '\U{BB}', '\U{BF}']

  // ---- slices ---------------------------------------------------------------------

  /** `s` without the white space at its end. */
  function RStripped(s: string): (r: string)
    ensures r <= s
    ensures r != "" ==> !IsSpace(r[|r| - 1])
    ensures forall i :: |r| <= i < |s| ==> IsSpace(s[i])
  {
    if s != "" && IsSpace(s[|s| - 1]) then RStripped(s[..|s| - 1]) else s
  }

  /** The number of white space characters at the start of `s`. */
  function Leading(s: string): (n: nat)
    ensures n <= |s|
    ensures forall i :: 0 <= i < n ==> IsSpace(s[i])
    ensures n < |s| ==> !IsSpace(s[n])
  {
    if s != "" && IsSpace(s[0]) then 1 + Leading(s[1..]) else 0
  }

  function LSkipped(s: string): string {
    s[Leading(s)..]
  }

  /** A `;` at `i` that starts a comment: white space comes before it. */
  predicate IsComment(s: string, i: nat)
    requires i < |s|
  {
    s[i] == ';' && i > 0 && IsSpace(s[i - 1])
  }

  /** Where `find_char_or_comment` stops: the first `c` or comment, or the end. */
  predicate StopsAt(s: string, c: char, i: nat)
    requires i < |s|
  {
    s[i] == c || IsComment(s, i)
  }

  function Find(s: string, c: char, from: nat): (n: nat)
    requires from <= |s|
    ensures from <= n <= |s|
    ensures forall i :: from <= i < n ==> !StopsAt(s, c, i)
    ensures n < |s| ==> StopsAt(s, c, n)
    decreases |s| - from
  {
    if from == |s| || StopsAt(s, c, from) then from else Find(s, c, from + 1)
  }

  /** The position is determined by what the contract of `Find` says. */
  lemma FindIs(s: string, c: char, n: nat)
    requires n <= |s| && (forall i :: 0 <= i < n ==> !StopsAt(s, c, i))
    requires n < |s| ==> StopsAt(s, c, n)
    ensures Find(s, c, 0) == n
  {
  }

  lemma RStrippedIs(s: string, r: string)
    requires r <= s && (r != "" ==> !IsSpace(r[|r| - 1]))
    requires forall i :: |r| <= i < |s| ==> IsSpace(s[i])
    ensures RStripped(s) == r
  {
    var q := RStripped(s);
    assert q == s[..|q|] && r == s[..|r|];
    assert r != "" ==> r[|r| - 1] == s[|r| - 1];
    assert q != "" ==> q[|q| - 1] == s[|q| - 1];
  }

  /** What a buffer of `size` characters keeps of a copied string. */
  function Truncated(s: string, size: nat): string
    requires size > 0
  {
    if |s| < size then s else s[..size - 1]
  }

  /** The C string that a buffer holding `raw` starts with. */
  function CString(raw: string): (s: string)
    ensures s <= raw && NUL !in s
    ensures |s| < |raw| ==> raw[|s|] == NUL
  {
    if raw == "" || raw[0] == NUL then "" else [raw[0]] + CString(raw[1..])
  }

  // ---- lines ------------------------------------------------------------------------

  datatype Call = Call(section: string, name: string, value: string)

  /** What is carried from line to line; `calls` are the handler calls made. */
  datatype Context = Context(section: string, prev: string, calls: seq<Call>)

  /** The handler's verdict may depend on everything it was called with so far,
      this call being the last one. */
  type Handler = seq<Call> -> bool

  /** A line is fine, or it is malformed or rejected by the handler. */
  datatype Outcome = Outcome(context: Context, ok: bool)

  function CallHandler(handler: Handler, ctx: Context, call: Call): Outcome {
    var calls := ctx.calls + [call];
    Outcome(ctx.(calls := calls), handler(calls))
  }

  /** `[section]`, given what follows the bracket. */
  function SectionLine(ctx: Context, s: string): Outcome {
    var end := Find(s, ']', 0);
    if end < |s| && s[end] == ']' then
      Outcome(ctx.(section := Truncated(s[..end], MAX_SECTION), prev := ""), true)
    else Outcome(ctx, false)
  }

  /** Where name and value are separated: at the first `=` before a comment, or
      else at the first `:` before a comment. */
  function Separator(s: string): (n: nat)
    ensures n <= |s|
  {
    var eq := Find(s, '=', 0);
    if eq < |s| && s[eq] == '=' then eq else Find(s, ':', 0)
  }

  predicate HasSeparator(s: string) {
    var n := Separator(s);
    n < |s| && (s[n] == '=' || s[n] == ':')
  }

  function NameOf(s: string): string {
    RStripped(s[..Separator(s)])
  }

  /** The value, without a trailing comment and without surrounding space. */
  function ValueOf(s: string): string
    requires HasSeparator(s)
  {
    var v := LSkipped(s[Separator(s) + 1..]);
    RStripped(v[..Find(v, NUL, 0)])
  }

  function PairLine(handler: Handler, ctx: Context, s: string): Outcome {
    if HasSeparator(s) then
      CallHandler(handler, ctx.(prev := Truncated(NameOf(s), MAX_NAME)),
                  Call(ctx.section, NameOf(s), ValueOf(s)))
    else Outcome(ctx, false)
  }

  /** A stripped line; `indented` says that something was skipped in front. */
  function Classified(handler: Handler, ctx: Context, s: string, indented: bool): Outcome {
    if s != "" && (s[0] == ';' || s[0] == '#') then Outcome(ctx, true)
    else if ctx.prev != "" && s != "" && indented then
      CallHandler(handler, ctx, Call(ctx.section, ctx.prev, s))
    else if s != "" && s[0] == '[' then SectionLine(ctx, s[1..])
    else if s != "" then PairLine(handler, ctx, s)
    else Outcome(ctx, true)
  }

  /** The length of a byte order mark, which only the first line may have. */
  function BomLength(s: string, first: bool): (n: nat)
    ensures n <= |s|
  {
    if first && |s| >= 3 && s[..3] == BOM then 3 else 0
  }

  function Line(handler: Handler, ctx: Context, raw: string, first: bool): Outcome {
    var s := CString(raw);
    var skip := BomLength(s, first);
    var body := RStripped(s[skip..]);
    Classified(handler, ctx, LSkipped(body), skip + Leading(body) > 0)
  }

  // ---- files ------------------------------------------------------------------------

  /** How much one `fgets` with room for `limit` characters reads. */
  function ChunkLength(file: string, limit: nat): (n: nat)
    ensures n <= |file| && n <= limit
    ensures file != "" && limit > 0 ==> n > 0
  {
    if file == "" || limit == 0 then 0
    else if file[0] == '\n' then 1
    else 1 + ChunkLength(file[1..], limit - 1)
  }

  function Lines(file: string): seq<string>
    decreases |file|
  {
    if file == "" then []
    else
      var n := ChunkLength(file, INI_MAX_LINE - 1);
      [file[..n]] + Lines(file[n..])
  }

  const START := Context("", "", [])

  /** What one line does: context, line and whether it is the first one. */
  type Step = (Context, string, bool) -> Outcome

  function LineStep(handler: Handler): Step {
    (ctx, raw, first) => Line(handler, ctx, raw, first)
  }

  /** The context after the first `k` lines. */
  function After(step: Step, lines: seq<string>, k: nat): Context
    requires k <= |lines|
  {
    if k == 0 then START else step(After(step, lines, k - 1), lines[k - 1], k == 1).context
  }

  /** Line number `k`, counting from 1, is fine. */
  predicate LineOk(step: Step, lines: seq<string>, k: nat)
    requires 1 <= k <= |lines|
  {
    step(After(step, lines, k - 1), lines[k - 1], k == 1).ok
  }

  /** The first `n` lines are fine. */
  predicate AllOk(step: Step, lines: seq<string>, n: nat)
    requires n <= |lines|
  {
    forall k: nat :: 1 <= k <= n ==> LineOk(step, lines, k)
  }

  /** `error` is the number of the first line that is not fine, or 0. */
  predicate IsFirstError(step: Step, lines: seq<string>, error: nat) {
    if error == 0 then AllOk(step, lines, |lines|)
    else error <= |lines| && !LineOk(step, lines, error) && AllOk(step, lines, error - 1)
  }
}
