/** `ini_parse_file`: one line buffer, scanned and cut in place by writing NULs. */
module IniFile {
  import opened IniGrammar

  /** The C string `t` starts at index `s` of the buffer `b`. */
  ghost predicate StringAt(b: seq<char>, s: nat, t: string) {
    && s + |t| < |b|
    && (forall i :: 0 <= i < |t| ==> b[s + i] == t[i])
    && b[s + |t|] == NUL && NUL !in t
  }

  ghost predicate SameOutside(a: seq<char>, b: seq<char>, lo: nat, hi: nat) {
    |a| == |b| && forall i :: 0 <= i < |a| && !(lo <= i < hi) ==> a[i] == b[i]
  }

  lemma SuffixAt(b: seq<char>, s: nat, t: string, k: nat)
    requires StringAt(b, s, t) && k <= |t|
    ensures StringAt(b, s + k, t[k..])
  {
    forall i | 0 <= i < |t| - k
      ensures b[s + k + i] == t[k..][i]
    {
      assert b[s + (k + i)] == t[k + i];
    }
  }

  /** A NUL written over position `k` of a string leaves two strings. */
  lemma CutAt(b: seq<char>, s: nat, t: string, k: nat)
    requires StringAt(b, s, t) && k < |t|
    ensures StringAt(b[s + k := NUL], s, t[..k]) && StringAt(b[s + k := NUL], s + k + 1, t[k + 1..])
  {
    SuffixAt(b, s, t, k + 1);
  }

  /** Writing only outside a string and its NUL leaves it alone. */
  lemma KeptAt(a: seq<char>, b: seq<char>, lo: nat, hi: nat, s: nat, t: string)
    requires StringAt(a, s, t) && SameOutside(a, b, lo, hi) && (hi <= s || s + |t| < lo)
    ensures StringAt(b, s, t)
  {
    forall i | 0 <= i < |t|
      ensures b[s + i] == t[i]
    {
      assert a[s + i] == t[i];
    }
  }

  /** The first NUL is at the end of the string. */
  lemma CharAt(b: seq<char>, s: nat, t: string, i: nat)
    requires StringAt(b, s, t) && i <= |t|
    ensures b[s + i] == NUL <==> i == |t|
    ensures i < |t| ==> b[s + i] == t[i]
  {
    if i < |t| {
      assert t[i] in t;
    }
  }

  // ---- the helper functions of ini.c -----------------------------------------------

  method StrLen(line: array<char>, s: nat, ghost t: string) returns (n: nat)
    requires StringAt(line[..], s, t)
    ensures n == |t|
  {
    n := 0;
    CharAt(line[..], s, t, n);
    while line[s + n] != NUL
      invariant n <= |t| && (line[s + n] == NUL <==> n == |t|)
      decreases |t| - n
    {
      n := n + 1;
      CharAt(line[..], s, t, n);
    }
  }

  /** `rstrip`: NULs over the white space at the end. */
  method RStrip(line: array<char>, s: nat, ghost t: string)
    requires StringAt(line[..], s, t)
    modifies line
    ensures StringAt(line[..], s, RStripped(t))
    ensures SameOutside(old(line[..]), line[..], s, s + |t|)
  {
    var n := StrLen(line, s, t);
    var p := s + n;
    while p > s && IsSpace(line[p - 1])
      invariant s <= p <= s + |t|
      invariant forall i :: 0 <= i < p - s ==> line[s + i] == t[i]
      invariant line[p] == NUL
      invariant forall i :: p - s <= i < |t| ==> IsSpace(t[i])
      invariant SameOutside(old(line[..]), line[..], s, s + |t|)
    {
      assert line[s + (p - s - 1)] == t[p - s - 1];
      p := p - 1;
      line[p] := NUL;
    }
    ghost var r := t[..p - s];
    assert r != "" ==> line[s + (p - s - 1)] == t[p - s - 1];
    RStrippedIs(t, r);
  }

  /** `lskip`. */
  method LSkip(line: array<char>, s: nat, ghost t: string) returns (p: nat)
    requires StringAt(line[..], s, t)
    ensures p == s + Leading(t) && StringAt(line[..], p, LSkipped(t))
  {
    p := s;
    CharAt(line[..], s, t, 0);
    while line[p] != NUL && IsSpace(line[p])
      invariant s <= p <= s + |t| && (line[p] == NUL <==> p == s + |t|)
      invariant p < s + |t| ==> line[p] == t[p - s]
      invariant Leading(t) == p - s + Leading(t[p - s..])
      decreases s + |t| - p
    {
      assert t[p - s..][1..] == t[p - s + 1..];
      p := p + 1;
      CharAt(line[..], s, t, p - s);
    }
    SuffixAt(line[..], s, t, p - s);
  }

  /** `find_char_or_comment`. */
  method FindCharOrComment(line: array<char>, s: nat, c: char, ghost t: string) returns (p: nat)
    requires StringAt(line[..], s, t)
    ensures p == s + Find(t, c, 0)
  {
    p := s;
    var wasSpace := false;
    CharAt(line[..], s, t, 0);
    while line[p] != NUL && line[p] != c && !(wasSpace && line[p] == ';')
      invariant s <= p <= s + |t| && (line[p] == NUL <==> p == s + |t|)
      invariant p < s + |t| ==> line[p] == t[p - s]
      invariant wasSpace == (p > s && IsSpace(t[p - s - 1]))
      invariant forall i :: 0 <= i < p - s ==> !StopsAt(t, c, i)
      decreases s + |t| - p
    {
      wasSpace := IsSpace(line[p]);
      p := p + 1;
      CharAt(line[..], s, t, p - s);
    }
    FindIs(t, c, p - s);
  }

  /** `strncpy0`: a copy cut to the size of the buffer and padded with NULs. */
  method StrNCpy0(dest: array<char>, line: array<char>, s: nat, ghost t: string)
    requires StringAt(line[..], s, t) && dest != line && dest.Length > 0
    modifies dest
    ensures StringAt(dest[..], 0, Truncated(t, dest.Length))
  {
    ghost var b := line[..];
    var i, done := 0, false;
    while i < dest.Length
      invariant 0 <= i <= dest.Length && line[..] == b
      invariant done == (i > |t|)
      invariant forall j :: 0 <= j < i ==> dest[j] == if j < |t| then t[j] else NUL
    {
      if !done {
        CharAt(b, s, t, i);
        dest[i] := line[s + i];
        done := line[s + i] == NUL;
      } else {
        dest[i] := NUL;
      }
      i := i + 1;
    }
    dest[dest.Length - 1] := NUL;
  }

  /** The handler reads its arguments from the buffers. */
  method ReadString(line: array<char>, s: nat, ghost t: string) returns (r: string)
    requires StringAt(line[..], s, t)
    ensures r == t
  {
    var n := StrLen(line, s, t);
    r := line[s..s + n];
    forall i | 0 <= i < n
      ensures r[i] == t[i]
    {
      assert line[..][s + i] == t[i];
    }
  }

  lemma PrefixAt(b: seq<char>, raw: string, i: nat)
    requires |raw| <= |b| && b[..|raw|] == raw && i < |raw|
    ensures b[i] == raw[i]
  {
    assert b[..|raw|][i] == raw[i];
  }

  lemma BufferHoldsCString(b: seq<char>, raw: string)
    requires |raw| < |b| && b[..|raw|] == raw && b[|raw|] == NUL
    ensures StringAt(b, 0, CString(raw))
  {
    var t := CString(raw);
    forall i | 0 <= i < |t|
      ensures b[0 + i] == t[i]
    {
      PrefixAt(b, raw, i);
    }
    if |t| < |raw| {
      PrefixAt(b, raw, |t|);
    }
  }

  /** `fgets` with a buffer of `line.Length` characters. */
  method FGets(line: array<char>, file: string, pos: nat) returns (next: nat)
    requires pos < |file| && line.Length > 1
    modifies line
    ensures next == pos + ChunkLength(file[pos..], line.Length - 1)
    ensures StringAt(line[..], 0, CString(file[pos..next]))
  {
    next := pos;
    var newline := false;
    while next < |file| && next - pos < line.Length - 1 && !newline
      invariant pos <= next <= |file| && next - pos <= line.Length - 1
      invariant line[..next - pos] == file[pos..next]
      invariant ChunkLength(file[pos..], line.Length - 1)
             == next - pos + if newline then 0 else ChunkLength(file[next..], line.Length - 1 - (next - pos))
      decreases |file| - next
    {
      var c := file[next];
      assert file[next..][0] == c && file[next..][1..] == file[next + 1..];
      line[next - pos] := c;
      assert line[..next - pos + 1] == file[pos..next] + [c] == file[pos..next + 1];
      newline := c == '\n';
      next := next + 1;
    }
    line[next - pos] := NUL;
    BufferHoldsCString(line[..], file[pos..next]);
  }

  // ---- one line ----------------------------------------------------------------------

  class Parser {
    const line: array<char>
    const section: array<char>
    const prevName: array<char>
    var calls: seq<Call>
    ghost var ctx: Context

    /** The buffers hold what the grammar calls the context. */
    ghost predicate Valid()
      reads this, section, prevName, line
    {
      && line.Length == INI_MAX_LINE && section.Length == MAX_SECTION && prevName.Length == MAX_NAME
      && line != section && line != prevName && section != prevName
      && StringAt(section[..], 0, ctx.section) && StringAt(prevName[..], 0, ctx.prev)
      && calls == ctx.calls
    }

    constructor ()
      ensures Valid() && ctx == START
      ensures fresh(line) && fresh(section) && fresh(prevName)
    {
      line := new char[INI_MAX_LINE](_ => NUL);
      section := new char[MAX_SECTION](_ => NUL);
      prevName := new char[MAX_NAME](_ => NUL);
      calls := [];
      ctx := START;
    }

    method CallHandler(handler: Handler, name: string, value: string) returns (ok: bool)
      requires Valid()
      modifies this
      ensures Valid()
      ensures Outcome(ctx, ok) == IniGrammar.CallHandler(handler, old(ctx), Call(old(ctx).section, name, value))
    {
      var sec := ReadString(section, 0, ctx.section);
      calls := calls + [Call(sec, name, value)];
      ctx := ctx.(calls := calls);
      ok := handler(calls);
    }

    /** A line that starts with `[` at `start`. */
    method ScanSection(start: nat, ghost t: string) returns (ok: bool)
      requires Valid() && t != "" && StringAt(line[..], start, t)
      modifies this, line, section, prevName
      ensures Valid() && Outcome(ctx, ok) == SectionLine(old(ctx), t[1..])
    {
      ghost var s := t[1..];
      SuffixAt(line[..], start, t, 1);
      var end := FindCharOrComment(line, start + 1, ']', s);
      ghost var k := Find(s, ']', 0);
      CharAt(line[..], start + 1, s, k);
      ok := line[end] == ']';
      if ok {
        EnterSection(start + 1, end, s);
      }
    }

    /** Copies the section name in front of the bracket at `end`. */
    method EnterSection(start: nat, end: nat, ghost s: string)
      requires Valid() && StringAt(line[..], start, s)
      requires end == start + Find(s, ']', 0) && end < start + |s|
      modifies this, line, section, prevName
      ensures Valid()
      ensures ctx == old(ctx).(section := Truncated(s[..Find(s, ']', 0)], MAX_SECTION), prev := "")
    {
      ghost var name := s[..end - start];
      CutAt(line[..], start, s, end - start);
      line[end] := NUL;
      StrNCpy0(section, line, start, name);
      prevName[0] := NUL;
      ctx := ctx.(section := Truncated(name, MAX_SECTION), prev := "");
    }

    /** A line that must be a pair; the separator becomes a NUL. */
    method ScanPair(start: nat, handler: Handler, ghost t: string) returns (ok: bool)
      requires Valid() && StringAt(line[..], start, t)
      modifies this, line, section, prevName
      ensures Valid() && Outcome(ctx, ok) == PairLine(handler, old(ctx), t)
    {
      var end := FindSeparator(start, t);
      ghost var k := Separator(t);
      CharAt(line[..], start, t, k);
      ok := line[end] == '=' || line[end] == ':';
      if ok {
        var lo := SplitPair(start, end, t);
        StrNCpy0(prevName, line, start, NameOf(t));
        ctx := ctx.(prev := Truncated(NameOf(t), MAX_NAME));
        var name := ReadString(line, start, NameOf(t));
        var value := ReadString(line, lo, ValueOf(t));
        ok := CallHandler(handler, name, value);
      }
    }

    /** Cuts at the separator; both halves are stripped in place. */
    method SplitPair(start: nat, end: nat, ghost t: string) returns (lo: nat)
      requires StringAt(line[..], start, t) && HasSeparator(t) && end == start + Separator(t)
      modifies line
      ensures StringAt(line[..], start, NameOf(t)) && StringAt(line[..], lo, ValueOf(t))
    {
      ghost var name, rest := t[..Separator(t)], t[Separator(t) + 1..];
      CutAt(line[..], start, t, Separator(t));
      line[end] := NUL;
      StripBefore(start, name, end + 1, rest);
      ghost var stripped := line[..];
      lo := CutValue(end + 1, rest);
      KeptAt(stripped, line[..], end + 1, end + 1 + |rest|, start, RStripped(name));
    }

    /** Strips a string in front of another one. */
    method StripBefore(start: nat, ghost name: string, next: nat, ghost rest: string)
      requires StringAt(line[..], start, name) && StringAt(line[..], next, rest) && start + |name| < next
      modifies line
      ensures StringAt(line[..], start, RStripped(name)) && StringAt(line[..], next, rest)
    {
      ghost var before := line[..];
      RStrip(line, start, name);
      KeptAt(before, line[..], start, start + |name|, next, rest);
    }

    method FindSeparator(start: nat, ghost t: string) returns (end: nat)
      requires StringAt(line[..], start, t)
      ensures end == start + Separator(t)
    {
      end := FindCharOrComment(line, start, '=', t);
      CharAt(line[..], start, t, end - start);
      if line[end] != '=' {
        end := FindCharOrComment(line, start, ':', t);
      }
    }

    /** Skips space before the value, cuts its comment and the space at its end. */
    method CutValue(start: nat, ghost t: string) returns (lo: nat)
      requires StringAt(line[..], start, t)
      modifies line
      ensures var v := LSkipped(t);
              lo == start + Leading(t) && StringAt(line[..], lo, RStripped(v[..Find(v, NUL, 0)]))
      ensures SameOutside(old(line[..]), line[..], start, start + |t|)
    {
      lo := LSkip(line, start, t);
      ghost var v := LSkipped(t);
      CutComment(lo, v);
      RStrip(line, lo, v[..Find(v, NUL, 0)]);
    }

    method CutComment(start: nat, ghost v: string)
      requires StringAt(line[..], start, v)
      modifies line
      ensures StringAt(line[..], start, v[..Find(v, NUL, 0)])
      ensures SameOutside(old(line[..]), line[..], start, start + |v|)
    {
      var end := FindCharOrComment(line, start, NUL, v);
      CharAt(line[..], start, v, end - start);
      if line[end] == ';' {
        CutAt(line[..], start, v, end - start);
        line[end] := NUL;
      } else {
        assert v[..|v|] == v;
      }
    }

    /** The body of the `while` loop: the line in the buffer came from `raw`. */
    method ScanLine(first: bool, handler: Handler, ghost raw: string) returns (ok: bool)
      requires Valid() && StringAt(line[..], 0, CString(raw))
      modifies this, line, section, prevName
      ensures Valid() && Outcome(ctx, ok) == Line(handler, old(ctx), raw, first)
    {
      ghost var s := CString(raw);
      var start := SkipBom(first, s);
      SuffixAt(line[..], 0, s, start);
      start := StripLine(start, s[start..]);
      ghost var t := LSkipped(RStripped(s[BomLength(s, first)..]));
      ok := ScanStripped(start, handler, t);
    }

    /** `lskip(rstrip(start))`. */
    method StripLine(start: nat, ghost s: string) returns (next: nat)
      requires Valid() && StringAt(line[..], start, s)
      modifies line
      ensures Valid()
      ensures next == start + Leading(RStripped(s)) && StringAt(line[..], next, LSkipped(RStripped(s)))
    {
      RStrip(line, start, s);
      next := LSkip(line, start, RStripped(s));
    }

    method SkipBom(first: bool, ghost s: string) returns (start: nat)
      requires line.Length == INI_MAX_LINE && StringAt(line[..], 0, s)
      ensures start == BomLength(s, first)
    {
      start := 0;
      forall i: nat | i <= |s|
        ensures line[i] == NUL <==> i == |s|
        ensures i < |s| ==> line[i] == s[i]
      {
        CharAt(line[..], 0, s, i);
      }
      if first && line[0] == BOM[0] && line[1] == BOM[1] && line[2] == BOM[2] {
        start := 3;
      }
    }

    /** The chain of cases on the stripped line. */
    method ScanStripped(start: nat, handler: Handler, ghost t: string) returns (ok: bool)
      requires Valid() && StringAt(line[..], start, t)
      modifies this, line, section, prevName
      ensures Valid() && Outcome(ctx, ok) == Classified(handler, old(ctx), t, start > 0)
    {
      CharAt(line[..], start, t, 0);
      CharAt(prevName[..], 0, ctx.prev, 0);
      if line[start] == ';' || line[start] == '#' {
        ok := true;
      } else if prevName[0] != NUL && line[start] != NUL && start > 0 {
        var name := ReadString(prevName, 0, ctx.prev);
        var value := ReadString(line, start, t);
        ok := CallHandler(handler, name, value);
      } else if line[start] == '[' {
        ok := ScanSection(start, t);
      } else if line[start] != NUL {
        ok := ScanPair(start, handler, t);
      } else {
        ok := true;
      }
    }
  }

  // ---- the whole file ------------------------------------------------------------------

  lemma LinesStep(rest: string, n: nat, raw: string, tail: string)
    requires rest != "" && n == ChunkLength(rest, INI_MAX_LINE - 1) && rest[..n] == raw && rest[n..] == tail
    ensures Lines(rest) == [raw] + Lines(tail)
  {
  }

  lemma LinesCarry(all: seq<string>, a: seq<string>, c: seq<string>, x: string, b: seq<string>)
    requires all == a + c && c == [x] + b
    ensures all == a + [x] + b
  {
  }

  /** The contexts after the first lines do not depend on later lines. */
  lemma {:induction false} AfterPrefix(step: Step, lines: seq<string>, raw: string, k: nat)
    requires k <= |lines|
    ensures After(step, lines + [raw], k) == After(step, lines, k)
    ensures k >= 1 ==> LineOk(step, lines + [raw], k) == LineOk(step, lines, k)
  {
    if k > 0 {
      AfterPrefix(step, lines, raw, k - 1);
      assert (lines + [raw])[k - 1] == lines[k - 1];
    }
  }

  lemma AllOkPrefix(step: Step, lines: seq<string>, raw: string, n: nat)
    requires n <= |lines| && AllOk(step, lines, n)
    ensures AllOk(step, lines + [raw], n)
  {
    forall k: nat | 1 <= k <= n
      ensures LineOk(step, lines + [raw], k)
    {
      AfterPrefix(step, lines, raw, k);
      assert LineOk(step, lines, k);
    }
  }

  /** One more line: its context and its verdict. */
  lemma AfterExtends(step: Step, lines: seq<string>, raw: string, o: Outcome)
    requires o == step(After(step, lines, |lines|), raw, |lines| == 0)
    ensures After(step, lines + [raw], |lines| + 1) == o.context
    ensures LineOk(step, lines + [raw], |lines| + 1) == o.ok
  {
    AfterPrefix(step, lines, raw, |lines|);
    assert (lines + [raw])[|lines|] == raw;
  }

  /** What the first error becomes. */
  lemma FirstErrorExtends(step: Step, lines: seq<string>, raw: string, ok: bool, error: nat)
    requires IsFirstError(step, lines, error)
    requires LineOk(step, lines + [raw], |lines| + 1) == ok
    ensures IsFirstError(step, lines + [raw], if !ok && error == 0 then |lines| + 1 else error)
  {
    if error == 0 {
      AllOkPrefix(step, lines, raw, |lines|);
    } else {
      AfterPrefix(step, lines, raw, error);
      AllOkPrefix(step, lines, raw, error - 1);
    }
  }

  /** The calls made are those of the grammar, over all lines; the result is the
      number of the first line that is not fine, or 0. */
  method ParseFile(file: string, handler: Handler) returns (error: nat, calls: seq<Call>)
    ensures calls == After(LineStep(handler), Lines(file), |Lines(file)|).calls
    ensures IsFirstError(LineStep(handler), Lines(file), error)
  {
    var p := new Parser();
    error := ScanFile(p, file, handler);
    calls := p.calls;
  }

  /** The `while` loop over the lines. */
  method ScanFile(p: Parser, file: string, handler: Handler) returns (error: nat)
    requires p.Valid() && p.ctx == START
    modifies p, p.line, p.section, p.prevName
    ensures p.Valid() && p.ctx == After(LineStep(handler), Lines(file), |Lines(file)|)
    ensures IsFirstError(LineStep(handler), Lines(file), error)
  {
    var lineno, pos := 0, 0;
    error := 0;
    ghost var lines: seq<string> := [];
    assert file[0..] == file;
    while pos < |file|
      invariant p.Valid()
      invariant pos <= |file| && lineno == |lines|
      invariant Scanned(LineStep(handler), file, pos, lines, p.ctx, error)
      decreases |file| - pos
    {
      ghost var raw: string;
      lineno := lineno + 1;
      pos, error, raw := ReadAndScan(p, file, pos, lineno, handler, error, lines);
      lines := lines + [raw];
    }
    assert lines + [] == lines;
  }

  /** The loop invariant: what the lines before `pos` amount to. */
  ghost predicate Scanned(step: Step, file: string, pos: nat, lines: seq<string>, ctx: Context, error: nat) {
    && pos <= |file|
    && Lines(file) == lines + Lines(file[pos..])
    && ctx == After(step, lines, |lines|)
    && IsFirstError(step, lines, error)
  }

  lemma ScanMore(step: Step, file: string, pos: nat, next: nat, lines: seq<string>, raw: string, o: Outcome, error: nat)
    requires pos < |file| && next == pos + ChunkLength(file[pos..], INI_MAX_LINE - 1) && raw == file[pos..next]
    requires Scanned(step, file, pos, lines, After(step, lines, |lines|), error)
    requires o == step(After(step, lines, |lines|), raw, |lines| == 0)
    ensures Scanned(step, file, next, lines + [raw], o.context, if !o.ok && error == 0 then |lines| + 1 else error)
  {
    LinesAdvance(file, pos, next, lines, raw);
    AfterExtends(step, lines, raw, o);
    FirstErrorExtends(step, lines, raw, o.ok, error);
  }

  lemma LinesAdvance(file: string, pos: nat, next: nat, lines: seq<string>, raw: string)
    requires pos < |file| && next == pos + ChunkLength(file[pos..], INI_MAX_LINE - 1) && raw == file[pos..next]
    requires Lines(file) == lines + Lines(file[pos..])
    ensures Lines(file) == lines + [raw] + Lines(file[next..])
  {
    var rest := file[pos..];
    assert rest[..next - pos] == raw && rest[next - pos..] == file[next..];
    LinesStep(rest, next - pos, raw, file[next..]);
    LinesCarry(Lines(file), lines, Lines(rest), raw, Lines(file[next..]));
  }

  /** One round of the loop: the next line goes into the buffer and is scanned. */
  method ReadAndScan(p: Parser, file: string, pos: nat, lineno: nat, handler: Handler, error: nat,
                     ghost lines: seq<string>)
    returns (next: nat, firstError: nat, ghost raw: string)
    requires p.Valid() && pos < |file| && lineno == |lines| + 1
    requires Scanned(LineStep(handler), file, pos, lines, p.ctx, error)
    modifies p, p.line, p.section, p.prevName
    ensures p.Valid() && pos < next
    ensures Scanned(LineStep(handler), file, next, lines + [raw], p.ctx, firstError)
  {
    next := FGets(p.line, file, pos);
    raw := file[pos..next];
    var ok := p.ScanLine(lineno == 1, handler, raw);
    ScanMore(LineStep(handler), file, pos, next, lines, raw, Outcome(p.ctx, ok), error);
    firstError := if !ok && error == 0 then lineno else error;
  }
}
