/** `INIReader`: a map from lower-case `section.name` to the value. */
module IniReader {
  import opened IniGrammar
  import opened Options
  import IniFile

  function LowerChar(c: char): char {
    if 'A' <= c <= 'Z' then (c as int - 'A' as int + 'a' as int) as char else c
  }

  function Lower(s: string): (r: string)
    ensures |r| == |s|
    ensures forall i :: 0 <= i < |s| ==> r[i] == if 'A' <= s[i] <= 'Z' then s[i] + 32 as char else s[i]
  {
    if s == "" then "" else [LowerChar(s[0])] + Lower(s[1..])
  }

  function MakeKey(section: string, name: string): string {
    Lower(section + "." + name)
  }

  /** The strings differ at most in the case of their letters. */
  predicate SameButCase(s: string, t: string) {
    |s| == |t| && forall i :: 0 <= i < |s| ==> SameLetter(s[i], t[i])
  }

  predicate SameLetter(c: char, d: char) {
    || c == d
    || ('A' <= c <= 'Z' && d as int == c as int + 32)
    || ('A' <= d <= 'Z' && c as int == d as int + 32)
  }

  lemma LowerLetterIff(c: char, d: char)
    ensures LowerChar(c) == LowerChar(d) <==> SameLetter(c, d)
  {
  }

  lemma {:induction false} LowerIff(s: string, t: string)
    ensures Lower(s) == Lower(t) <==> SameButCase(s, t)
    decreases |s|
  {
    if s != "" && |s| == |t| {
      LowerLetterIff(s[0], t[0]);
      LowerIff(s[1..], t[1..]);
      FirstAndRest(s, t);
      assert Lower(s)[0] == LowerChar(s[0]) && Lower(s)[1..] == Lower(s[1..]);
      assert Lower(t)[0] == LowerChar(t[0]) && Lower(t)[1..] == Lower(t[1..]);
    }
  }

  lemma FirstAndRest(s: string, t: string)
    requires |s| == |t| > 0
    ensures SameButCase(s, t) <==> SameLetter(s[0], t[0]) && SameButCase(s[1..], t[1..])
  {
    if SameLetter(s[0], t[0]) && SameButCase(s[1..], t[1..]) {
      forall i | 0 <= i < |s|
        ensures SameLetter(s[i], t[i])
      {
        if i > 0 { assert s[i] == s[1..][i - 1] && t[i] == t[1..][i - 1]; }
      }
    }
  }

  /** Keys are equal exactly when section, dot and name are the same but for case. */
  lemma KeyIgnoresCase(section: string, name: string, section': string, name': string)
    ensures MakeKey(section, name) == MakeKey(section', name')
       <==> SameButCase(section + "." + name, section' + "." + name')
  {
    LowerIff(section + "." + name, section' + "." + name');
  }

  lemma SameParts(section: string, name: string, section': string, name': string)
    requires SameButCase(section, section') && SameButCase(name, name')
    ensures SameButCase(section + "." + name, section' + "." + name')
  {
  }

  predicate IsTrue(word: string) {
    word == "true" || word == "yes" || word == "on" || word == "1"
  }

  predicate IsFalse(word: string) {
    word == "false" || word == "no" || word == "off" || word == "0"
  }

  type Values = map<string, string>

  /** What one call of `ValueHandler` stores: a value behind an earlier, non-empty
      one starts a new line. */
  function Stored(values: Values, call: Call): Values {
    var key := MakeKey(call.section, call.name);
    var prior := if key in values then values[key] else "";
    values[key := if prior == "" then call.value else prior + "\n" + call.value]
  }

  function StoredAll(values: Values, calls: seq<Call>): Values
    decreases |calls|
  {
    if calls == [] then values else StoredAll(Stored(values, calls[0]), calls[1..])
  }

  lemma {:induction false} StoredAllAppends(values: Values, calls: seq<Call>, more: seq<Call>)
    ensures StoredAll(values, calls + more) == StoredAll(StoredAll(values, calls), more)
    decreases |calls|
  {
    if calls == [] {
      assert [] + more == more;
    } else {
      assert (calls + more)[1..] == calls[1..] + more;
      StoredAllAppends(Stored(values, calls[0]), calls[1..], more);
    }
  }

  /** `ValueHandler` accepts every call. */
  const ACCEPT: Handler := _ => true

  class INIReader {
    var values: Values
    var error: int

    /** The state after reading `text`: all calls of its lines stored in order, and the
        number of its first bad line, or 0. */
    ghost predicate HasRead(text: string)
      reads this
    {
      var step, lines := LineStep(ACCEPT), Lines(text);
      && values == StoredAll(map[], After(step, lines, |lines|).calls)
      && error >= 0 && IsFirstError(step, lines, error)
    }

    /** `file` is the text, or `None` when it cannot be opened. */
    constructor (file: Option<string>)
      ensures file.None? ==> error == -1 && values == map[]
      ensures file.Some? ==> HasRead(file.value)
    {
      values, error := map[], -1;
      new;
      if file.Some? {
        var e, calls := IniFile.ParseFile(file.value, ACCEPT);
        error := e;
        StoreAll(calls);
      }
    }

    method StoreAll(calls: seq<Call>)
      modifies this`values
      ensures values == StoredAll(old(values), calls)
    {
      var i := 0;
      while i < |calls|
        invariant 0 <= i <= |calls|
        invariant values == StoredAll(old(values), calls[..i])
      {
        assert calls[..i + 1] == calls[..i] + [calls[i]];
        StoredAllAppends(old(values), calls[..i], [calls[i]]);
        assert [calls[i]][1..] == [];
        ValueHandler(calls[i]);
        i := i + 1;
      }
      assert calls[..i] == calls;
    }

    method ValueHandler(call: Call)
      modifies this`values
      ensures values == Stored(old(values), call)
      ensures var key := MakeKey(call.section, call.name);
              values == old(values)[key := if key in old(values) && old(values)[key] != ""
                                           then old(values)[key] + "\n" + call.value else call.value]
    {
      var key := MakeKey(call.section, call.name);
      ghost var prior := if key in values then values[key] else "";
      if key !in values {
        values := values[key := ""];
      }
      assert values[key] == prior;
      if |values[key]| > 0 {
        values := values[key := values[key] + "\n"];
      }
      values := values[key := values[key] + call.value];
      assert "" + call.value == call.value;
      assert values[key] == if prior == "" then call.value else prior + "\n" + call.value;
      assert values == old(values)[key := values[key]];
    }

    function Get(section: string, name: string, default: string): string
      reads this
    {
      var key := MakeKey(section, name);
      if key in values then values[key] else default
    }

    function GetBoolean(section: string, name: string, default: bool): bool
      reads this
    {
      var v := Lower(Get(section, name, ""));
      if IsTrue(v) then true else if IsFalse(v) then false else default
    }
  }
}
