/** The Content-Disposition header of a multipart part
    (multipart_parse_content_disposition in apache2/msc_multipart.c). */
module ContentDisposition {
  import opened Wrappers
  import opened CStrings

  // What parsing leaves behind, also when it fails half way.
  datatype Fields = Fields(name: Option<string>, filename: Option<string>, invalidQuoting: bool)

  predicate EndsName(c: char) {
    c == '=' || c == '\t' || c == ' '
  }

  function NameEnd(s: string, i: nat): (r: nat)
    requires i <= |s|
    ensures i <= r <= |s|
    ensures forall k :: i <= k < r ==> !EndsName(s[k])
    ensures r < |s| ==> EndsName(s[r])
    decreases |s| - i
  {
    if i < |s| && !EndsName(s[i]) then NameEnd(s, i + 1) else i
  }

  function TokenEnd(s: string, i: nat): (r: nat)
    requires i <= |s|
    ensures i <= r <= |s|
    ensures forall k :: i <= k < r ==> IsTokenChar(s[k])
    ensures r < |s| ==> !IsTokenChar(s[r])
    decreases |s| - i
  {
    if i < |s| && IsTokenChar(s[i]) then TokenEnd(s, i + 1) else i
  }

  // A quoted value: its text and the index of the closing quote, or an error code.
  datatype Quoted = Closed(value: string, end: nat) | Bad(rc: int)

  function Prepend(c: char, q: Quoted): Quoted {
    if q.Closed? then q.(value := [c] + q.value) else q
  }

  /** Reads up to the closing quote. A backslash escapes the quote and itself and
      stands for itself in front of anything else. */
  function ReadQuoted(s: string, i: nat, quote: char): (r: Quoted)
    requires i <= |s|
    ensures r.Closed? ==> i <= r.end < |s| && s[r.end] == quote
    ensures r.Bad? ==> r.rc < 0
    decreases |s| - i
  {
    if i == |s| then Bad(-10)
    else if s[i] == '\\' then
      if i + 1 == |s| then Bad(-8)
      else if s[i + 1] == quote || s[i + 1] == '\\' then Prepend(s[i + 1], ReadQuoted(s, i + 2, quote))
      else Prepend('\\', ReadQuoted(s, i + 1, quote))
    else if s[i] == quote then Closed("", i)
    else Prepend(s[i], ReadQuoted(s, i + 1, quote))
  }

  // A parameter value: where it ends, or an error code.
  datatype Value = Value(text: string, end: nat, invalidQuoting: bool) | BadValue(rc: int, invalidQuoting: bool)

  function ReadValue(s: string, i: nat): (r: Value)
    requires i < |s|
    ensures r.Value? ==> i <= r.end <= |s|
    ensures r.BadValue? ==> r.rc < 0
  {
    if s[i] == '"' || s[i] == '\'' then
      var single := s[i] == '\'';
      if i + 1 == |s| then BadValue(-7, single)
      else
        var q := ReadQuoted(s, i + 1, s[i]);
        if q.Bad? then BadValue(q.rc, single) else Value(q.value, q.end + 1, single)
    else
      var e := TokenEnd(s, i);
      Value(s[i..e], e, false)
  }

  /** Records one parameter; only name and filename are known, each once. */
  function Assign(f: Fields, name: string, value: string): (int, Fields) {
    var g := f.(invalidQuoting := f.invalidQuoting || '\'' in value);
    if name == "name" then
      if f.name != None then (-14, g) else (1, g.(name := Some(value)))
    else if name == "filename" then
      if f.filename != None then (-15, g) else (1, g.(filename := Some(value)))
    else (-11, f)
  }

  // One parameter read: parsing ends with a code, or goes on behind the next semicolon.
  datatype Param = Stop(rc: int, f: Fields) | Next(at: nat, f: Fields)

  function AfterValue(s: string, i: nat, f: Fields): (r: Param)
    requires i <= |s|
    ensures r.Next? ==> i < r.at <= |s|
  {
    var e := SkipBlank(s, i);
    if e == |s| then Stop(1, f)
    else if s[e] != ';' then
      Stop(-12, f.(invalidQuoting := f.invalidQuoting || (e > 0 && (s[e - 1] == '\'' || s[e - 1] == '"'))))
    else Next(e + 1, f)
  }

  function ReadParam(s: string, i: nat, f: Fields): (r: Param)
    requires i < |s|
    ensures r.Next? ==> i < r.at <= |s|
  {
    var a := SkipBlank(s, i);
    if a == |s| then Stop(-3, f) else
    var b := NameEnd(s, a);
    if b == |s| then Stop(-4, f) else
    var c := SkipBlank(s, b);
    if c == |s| then Stop(-5, f) else
    if s[c] != '=' then Stop(-13, f) else
    var d := SkipBlank(s, c + 1);
    if d == |s| then Stop(-6, f) else
    var v := ReadValue(s, d);
    var g := f.(invalidQuoting := f.invalidQuoting || v.invalidQuoting);
    if v.BadValue? then Stop(v.rc, g) else
    var (rc, h) := Assign(g, s[a..b], v.text);
    if rc < 0 then Stop(rc, h)
    else if v.end == |s| then Next(|s|, h) else AfterValue(s, v.end, h)
  }

  /** The parameters from index i on, just behind a semicolon. */
  function ParseParams(s: string, i: nat, f: Fields): (int, Fields)
    requires i <= |s|
    decreases |s| - i
  {
    if i == |s| then (1, f)
    else
      match ReadParam(s, i, f)
      case Stop(rc, g) => (rc, g)
      case Next(at, g) => ParseParams(s, at, g)
  }

  function Parse(s: string, f: Fields): (int, Fields) {
    if !StartsWith(s, 0, "form-data") then (-1, f)
    else
      var p := SkipBlank(s, 9);
      if p == |s| then (1, f)
      else if s[p] != ';' then (-2, f)
      else ParseParams(s, p + 1, f)
  }

  // ---------- the parser's own loops ----------

  method SkipBlanks(s: string, start: nat) returns (p: nat)
    requires start <= |s|
    ensures p == SkipBlank(s, start)
  {
    p := start;
    while p < |s| && IsBlank(s[p])
      invariant start <= p <= |s| && SkipBlank(s, start) == SkipBlank(s, p)
    {
      p := p + 1;
    }
  }

  // What is left to read is put behind what has been read.
  ghost function Behind(text: string, q: Quoted): Quoted {
    if q.Closed? then q.(value := text + q.value) else q
  }

  lemma BehindPrepend(text: string, c: char, q: Quoted)
    ensures Behind(text, Prepend(c, q)) == Behind(text + [c], q)
  {
    if q.Closed? {
      assert text + ([c] + q.value) == text + [c] + q.value;
    }
  }

  method ReadQuotedValue(s: string, start: nat, quote: char) returns (q: Quoted)
    requires start <= |s|
    ensures q == ReadQuoted(s, start, quote)
  {
    var p, t := start, "";
    while p < |s|
      invariant start <= p <= |s|
      invariant ReadQuoted(s, start, quote) == Behind(t, ReadQuoted(s, p, quote))
      decreases |s| - p
    {
      if s[p] == '\\' {
        if p + 1 == |s| {
          return Bad(-8);
        }
        if s[p + 1] == quote || s[p + 1] == '\\' {
          BehindPrepend(t, s[p + 1], ReadQuoted(s, p + 2, quote));
          p := p + 1;
        } else {
          BehindPrepend(t, s[p], ReadQuoted(s, p + 1, quote));
        }
      } else if s[p] == quote {
        assert t + "" == t;
        return Closed(t, p);
      } else {
        BehindPrepend(t, s[p], ReadQuoted(s, p + 1, quote));
      }
      t := t + [s[p]];
      p := p + 1;
    }
    return Bad(-10);
  }

  method ReadParamValue(s: string, start: nat) returns (v: Value)
    requires start < |s|
    ensures v == ReadValue(s, start)
  {
    if s[start] == '"' || s[start] == '\'' {
      var single := s[start] == '\'';
      if start + 1 == |s| {
        return BadValue(-7, single);
      }
      var q := ReadQuotedValue(s, start + 1, s[start]);
      if q.Bad? {
        return BadValue(q.rc, single);
      }
      return Value(q.value, q.end + 1, single);
    }
    var e := start;
    while e < |s| && IsTokenChar(s[e])
      invariant start <= e <= |s| && TokenEnd(s, start) == TokenEnd(s, e)
    {
      e := e + 1;
    }
    return Value(s[start..e], e, false);
  }

  method ProcessParam(s: string, start: nat, given: Fields) returns (r: Param)
    requires start < |s|
    ensures r == ReadParam(s, start, given)
  {
    hide SkipBlank, NameEnd, ReadValue, IsBlank, EndsName;
    var a := SkipBlanks(s, start);
    if a == |s| { return Stop(-3, given); }
    var b := a;
    while b < |s| && !EndsName(s[b])
      invariant a <= b <= |s| && forall k :: a <= k < b ==> !EndsName(s[k])
    {
      b := b + 1;
    }
    assert b == NameEnd(s, a);
    if b == |s| { return Stop(-4, given); }
    var c := SkipBlanks(s, b);
    if c == |s| { return Stop(-5, given); }
    if s[c] != '=' { return Stop(-13, given); }
    var d := SkipBlanks(s, c + 1);
    if d == |s| { return Stop(-6, given); }
    var v := ReadParamValue(s, d);
    var f := given.(invalidQuoting := given.invalidQuoting || v.invalidQuoting);
    if v.BadValue? { return Stop(v.rc, f); }
    var outcome := Assign(f, s[a..b], v.text);
    f := outcome.1;
    if outcome.0 < 0 { return Stop(outcome.0, f); }
    if v.end == |s| { return Next(|s|, f); }
    var e := SkipBlanks(s, v.end);
    if e == |s| { return Stop(1, f); }
    if s[e] != ';' {
      if s[e - 1] == '\'' || s[e - 1] == '"' {
        f := f.(invalidQuoting := true);
      }
      return Stop(-12, f);
    }
    return Next(e + 1, f);
  }

  /** Parses a NUL-free header value; the result code is 1 or a negative error. */
  method ParseContentDisposition(s: string, given: Fields) returns (rc: int, f: Fields)
    ensures (rc, f) == Parse(s, given)
  {
    f := given;
    if !StartsWith(s, 0, "form-data") {
      return -1, f;
    }
    var p := SkipBlanks(s, 9);
    if p == |s| {
      return 1, f;
    }
    if s[p] != ';' {
      return -2, f;
    }
    p := p + 1;
    assert Parse(s, given) == ParseParams(s, p, f);
    while p < |s|
      invariant p <= |s| && Parse(s, given) == ParseParams(s, p, f)
      decreases |s| - p
    {
      hide Parse, ReadParam;
      var r := ProcessParam(s, p, f);
      f := r.f;
      if r.Stop? {
        return r.rc, f;
      }
      p := r.at;
    }
    return 1, f;
  }

  // ---------- round trip ----------

  /** Backslash in front of every backslash and every quote of the kind used. */
  function EscapeFor(v: string, quote: char): string {
    if v == "" then ""
    else (if v[0] == quote || v[0] == '\\' then ['\\', v[0]] else [v[0]]) + EscapeFor(v[1..], quote)
  }

  function Escape(v: string): string {
    EscapeFor(v, '"')
  }

  function Print(name: string, filename: Option<string>): string {
    "form-data; name=\"" + Escape(name) + "\"" +
    (if filename == None then "" else "; filename=\"" + Escape(filename.value) + "\"")
  }

  /** Either quote, escaped the same way, gives the text back. */
  lemma {:induction false} ReadEscapedFor(pre: string, v: string, quote: char, rest: string)
    requires quote != '\\'
    ensures ReadQuoted(pre + EscapeFor(v, quote) + [quote] + rest, |pre|, quote) == Closed(v, |pre + EscapeFor(v, quote)|)
    decreases |v|
  {
    var s := pre + EscapeFor(v, quote) + [quote] + rest;
    if v == "" {
    } else {
      var c := if v[0] == quote || v[0] == '\\' then ['\\', v[0]] else [v[0]];
      ReadEscapedFor(pre + c, v[1..], quote, rest);
      assert pre + c + EscapeFor(v[1..], quote) == pre + EscapeFor(v, quote);
      assert s[|pre|] == c[0];
      if |c| == 2 { assert s[|pre| + 1] == v[0]; }
      assert [v[0]] + v[1..] == v;
    }
  }

  lemma ReadEscaped(pre: string, v: string, rest: string)
    ensures ReadQuoted(pre + Escape(v) + "\"" + rest, |pre|, '"') == Closed(v, |pre + Escape(v)|)
  {
    hide EscapeFor, ReadQuoted;
    ReadEscapedFor(pre, v, '"', rest);
    assert "\"" == ['"'];
  }

  predicate PlainName(name: string) {
    name != "" && forall k :: 0 <= k < |name| ==> !EndsName(name[k])
  }

  lemma SliceOf(s: string, pre: string, mid: string, tail: string)
    requires s == pre + mid + tail
    ensures |s| == |pre| + |mid| + |tail| && s[|pre|..|pre| + |mid|] == mid
  {
  }

  lemma CharOf(s: string, pre: string, tail: string, k: nat)
    requires s == pre + tail && k < |tail|
    ensures |pre| + k < |s| && s[|pre| + k] == tail[k]
  {
  }

  lemma Regroup(a: string, b: string, c: string, d: string, e: string)
    ensures a + (b + c + d) + e == (a + b) + c + (d + e)
    ensures a + (b + c + d) + e == a + (b + c + d + e)
    ensures a + (b + c + d) + e == (a + b + c) + (d + e)
  {
  }

  lemma SkipBlankStops(s: string, i: nat, j: nat)
    requires j < |s| && !IsBlank(s[j]) && (i == j || (i + 1 == j && s[i] == ' '))
    ensures SkipBlank(s, i) == j
  {
  }

  lemma NameEndsAt(s: string, i: nat, j: nat)
    requires i <= j < |s| && EndsName(s[j]) && PlainName(s[i..j])
    ensures NameEnd(s, i) == j
    ensures !IsBlank(s[i])
  {
    hide NameEnd;
    var e := NameEnd(s, i);
    assert s[i] == s[i..j][0];
    assert forall k :: i <= k < j ==> s[k] == s[i..j][k - i];
  }

  // Between start and the double quote at end is the quoted form of the value.
  ghost predicate QuotedValue(s: string, start: nat, value: string, end: int) {
    start <= |s| && 0 <= end && ReadQuoted(s, start, '"') == Closed(value, end)
  }

  // From i on the text is a space, the name, an equals sign and a double quote.
  ghost predicate NamePlaced(s: string, i: nat, name: string) {
    && i + 2 + |name| < |s| && s[i] == ' ' && s[i + 1..i + 1 + |name|] == name
    && s[i + 1 + |name|] == '=' && s[i + 2 + |name|] == '"'
  }

  lemma NameAt(s: string, i: nat, name: string)
    requires PlainName(name) && NamePlaced(s, i, name)
    ensures var a, b := i + 1, i + 1 + |name|;
            && b + 1 < |s| && SkipBlank(s, i) == a && NameEnd(s, a) == b && s[a..b] == name
            && SkipBlank(s, b) == b && s[b] == '=' && SkipBlank(s, b + 1) == b + 1 && s[b + 1] == '"'
  {
    hide SkipBlank, NameEnd, EndsName, IsBlank;
    var a, b := i + 1, i + 1 + |name|;
    SpecialChars();
    NameEndsAt(s, a, b);
    SkipBlankStops(s, i, a);
    SkipBlankStops(s, b, b);
    SkipBlankStops(s, b + 1, b + 1);
  }

  lemma SpecialChars()
    ensures EndsName('=') && !IsBlank('=') && !IsBlank('"')
  {
  }

  lemma PrintedNamePlaced(s: string, pre: string, blank: string, name: string, eq: string, tail: string)
    requires s == pre + (blank + name + eq) + tail
    requires |blank| == 1 && blank[0] == ' ' && |eq| == 2 && eq[0] == '=' && eq[1] == '"'
    ensures NamePlaced(s, |pre|, name)
  {
    Regroup(pre, blank, name, eq, tail);
    SliceOf(s, pre + blank, name, eq + tail);
    CharOf(s, pre, blank + name + eq + tail, 0);
    CharOf(s, pre + blank + name, eq + tail, 0);
    CharOf(s, pre + blank + name, eq + tail, 1);
  }

  // Behind pre the text is one printed parameter, and then rest.
  ghost predicate PrintedAt(s: string, pre: string, name: string, value: string, rest: string) {
    s == pre + (" " + name + "=\"") + (Escape(value) + "\"" + rest)
  }

  /** One printed parameter, read back from behind the semicolon. */
  lemma ReadPrinted(s: string, pre: string, name: string, value: string, rest: string, f: Fields)
    requires PrintedAt(s, pre, name, value, rest) && PlainName(name)
    requires rest == "" || rest[0] == ';'
    ensures |pre| < |s|
    ensures var (rc, g) := Assign(f, name, value);
            ReadParam(s, |pre|, f) == if rc < 0 then Stop(rc, g) else Next(if rest == "" then |s| else |s| - |rest| + 1, g)
  {
    hide PrintedAt, Assign, PlainName;
    PrintedPlaced(s, pre, name, value, rest);
    ParamAt(s, |pre|, name, value, |s| - |rest|, f);
  }

  lemma PrintedPlaced(s: string, pre: string, name: string, value: string, rest: string)
    requires PrintedAt(s, pre, name, value, rest)
    ensures NamePlaced(s, |pre|, name)
    ensures |rest| <= |s| && EndsWith(s, rest)
    ensures QuotedValue(s, |pre| + |name| + 3, value, |s| - |rest| - 1)
  {
    hide Escape, QuotedValue, NamePlaced, EndsWith;
    PlacedIn(s, pre, " ", name, "=\"", value, rest);
  }

  lemma PlacedIn(s: string, pre: string, blank: string, name: string, eq: string, value: string, rest: string)
    requires s == pre + (blank + name + eq) + (Escape(value) + "\"" + rest)
    requires |blank| == 1 && blank[0] == ' ' && |eq| == 2 && eq[0] == '=' && eq[1] == '"'
    ensures NamePlaced(s, |pre|, name)
    ensures |rest| <= |s| && EndsWith(s, rest)
    ensures QuotedValue(s, |pre| + |name| + 3, value, |s| - |rest| - 1)
  {
    hide Escape, QuotedValue, NamePlaced, EndsWith;
    PrintedNamePlaced(s, pre, blank, name, eq, Escape(value) + "\"" + rest);
    Tail(s, pre, blank + name + eq, Escape(value), "\"", rest);
    PrintedValue(s, pre, blank + name + eq, value, rest, |pre| + |name| + 3, |s| - |rest| - 1);
  }

  ghost predicate EndsWith(s: string, rest: string) {
    rest != "" ==> |rest| <= |s| && s[|s| - |rest|] == rest[0]
  }

  lemma Tail(s: string, pre: string, mid: string, escaped: string, quote: string, rest: string)
    requires s == pre + mid + (escaped + quote + rest) && |quote| == 1
    ensures |s| == |pre| + |mid| + |escaped| + 1 + |rest| && EndsWith(s, rest)
    ensures s == pre + mid + escaped + quote + rest
  {
  }

  lemma PrintedValue(s: string, pre: string, mid: string, value: string, rest: string, start: nat, end: nat)
    requires s == pre + mid + (Escape(value) + "\"" + rest)
    requires start == |pre| + |mid| && end == start + |Escape(value)|
    ensures QuotedValue(s, start, value, end)
  {
    hide Escape, ReadQuoted;
    Tail(s, pre, mid, Escape(value), "\"", rest);
    ReadEscaped(pre + mid, value, rest);
  }

  // A parameter whose quoted value ends just before e.
  lemma ParamAt(s: string, i: nat, name: string, value: string, e: nat, f: Fields)
    requires NamePlaced(s, i, name) && PlainName(name)
    requires 0 < e <= |s| && QuotedValue(s, i + |name| + 3, value, e - 1) && (e < |s| ==> s[e] == ';')
    ensures var (rc, g) := Assign(f, name, value);
            ReadParam(s, i, f) == if rc < 0 then Stop(rc, g) else Next(if e == |s| then |s| else e + 1, g)
  {
    hide Assign, ReadQuoted, SkipBlank, NameEnd, IsBlank, EndsName, PlainName, NamePlaced;
    NameAt(s, i, name);
    assert ReadValue(s, i + 2 + |name|) == Value(value, e, false);
    if e < |s| {
      SemicolonStops(s, e);
    }
  }

  lemma KnownNamesPlain()
    ensures PlainName("name") && PlainName("filename")
  {
  }

  lemma SemicolonStops(s: string, i: nat)
    requires i < |s| && s[i] == ';'
    ensures SkipBlank(s, i) == i
  {
  }

  /** Whatever the name and the file name are, the printed header parses back to
      them; only the quoting flag depends on the text (a single quote in it). */
  lemma RoundTrip(name: string, filename: Option<string>)
    ensures Parse(Print(name, filename), Fields(None, None, false))
         == (1, Fields(Some(name), filename,
                       '\'' in name || (filename != None && '\'' in filename.value)))
  {
    hide Escape, ReadParam, ParseParams, Parse;
    var s, f0 := Print(name, filename), Fields(None, None, false);
    var rest := if filename == None then "" else "; filename=\"" + Escape(filename.value) + "\"";
    var f1 := Fields(Some(name), None, '\'' in name);
    ReadFormData(s, name, rest, f0);
    if filename == None {
      ParamsEnd(s, f1);
    } else {
      ReadFilename(s, "form-data; name=\"" + Escape(name) + "\";", filename.value, f1);
      assert |"form-data; name=\"" + Escape(name) + "\";"| == |s| - |rest| + 1;
    }
  }

  /** The type and the name parameter, up to what follows. */
  lemma ReadFormData(s: string, name: string, rest: string, f0: Fields)
    requires s == "form-data; name=\"" + Escape(name) + "\"" + rest && f0 == Fields(None, None, false)
    requires rest == "" || rest[0] == ';'
    ensures Parse(s, f0) == ParseParams(s, if rest == "" then |s| else |s| - |rest| + 1, Fields(Some(name), None, '\'' in name))
  {
    hide Escape, PrintedAt, ReadParam, Parse, ParseParams, Assign;
    FormDataPrinted(s, name, rest);
    FormDataFirst(s, f0);
    KnownNamesPlain();
    ReadPrinted(s, "form-data;", "name", name, rest, f0);
    AssignName(f0, name);
    ParamsNext(s, 10, f0);
  }

  lemma FormDataFirst(s: string, f: Fields)
    requires |s| >= 10 && s[..10] == "form-data;"
    ensures Parse(s, f) == ParseParams(s, 10, f)
  {
    hide ParseParams;
    assert s[0..9] == s[..10][..9] == "form-data" && s[9] == s[..10][9] == ';';
  }

  lemma RegroupName(s: string, escaped: string, rest: string)
    requires s == "form-data; name=\"" + escaped + "\"" + rest
    ensures s == "form-data;" + (" " + "name" + "=\"") + (escaped + "\"" + rest)
    ensures s == "form-data;" + (" name=\"" + escaped + "\"" + rest)
  {
  }

  lemma FormDataPrinted(s: string, name: string, rest: string)
    requires s == "form-data; name=\"" + Escape(name) + "\"" + rest
    ensures PrintedAt(s, "form-data;", "name", name, rest) && |s| >= 10 && s[..10] == "form-data;"
  {
    hide Escape;
    RegroupName(s, Escape(name), rest);
    SliceOf(s, "", "form-data;", " name=\"" + Escape(name) + "\"" + rest);
  }

  lemma AssignName(f: Fields, name: string)
    requires f == Fields(None, None, false)
    ensures Assign(f, "name", name) == (1, Fields(Some(name), None, '\'' in name))
  {
  }

  lemma ParamsNext(s: string, i: nat, f: Fields)
    requires i < |s| && ReadParam(s, i, f).Next?
    ensures ParseParams(s, i, f) == ParseParams(s, ReadParam(s, i, f).at, ReadParam(s, i, f).f)
  {
    hide ReadParam;
  }

  lemma ParamsEnd(s: string, f: Fields)
    ensures ParseParams(s, |s|, f) == (1, f)
  {
  }

  lemma ReadFilename(s: string, pre: string, filename: string, f: Fields)
    requires PrintedAt(s, pre, "filename", filename, "") && f.filename == None
    ensures ParseParams(s, |pre|, f) ==
            (1, f.(filename := Some(filename), invalidQuoting := f.invalidQuoting || '\'' in filename))
  {
    hide Escape, ReadParam, PrintedAt;
    KnownNamesPlain();
    ReadPrinted(s, pre, "filename", filename, "", f);
    var g := f.(filename := Some(filename), invalidQuoting := f.invalidQuoting || '\'' in filename);
    assert Assign(f, "filename", filename) == (1, g);
    ParamsEnd(s, g);
  }

  // ---------- other ways to write a value ----------

  // Text that needs no escapes: backslashes stand in front of ordinary characters.
  predicate Raw(v: string, quote: char) {
    && (forall i :: 0 <= i < |v| ==> v[i] != quote)
    && (forall i :: 0 <= i < |v| && v[i] == '\\' ==> i + 1 < |v| && v[i + 1] != '\\')
  }

  /** A backslash that escapes nothing stands for itself, as in a path of Windows. */
  lemma {:induction false} ReadRaw(pre: string, v: string, quote: char, rest: string)
    requires Raw(v, quote) && quote != '\\'
    ensures ReadQuoted(pre + v + [quote] + rest, |pre|, quote) == Closed(v, |pre| + |v|)
    decreases |v|
  {
    var s := pre + v + [quote] + rest;
    if v != "" {
      assert s[|pre|] == v[0];
      if |v| > 1 { assert s[|pre| + 1] == v[1]; }
      assert forall i :: 0 <= i < |v| - 1 ==> v[1..][i] == v[i + 1];
      ReadRaw(pre + [v[0]], v[1..], quote, rest);
      assert pre + [v[0]] + v[1..] == pre + v;
      assert [v[0]] + v[1..] == v;
    }
  }

  /** A value without quotes is read up to the first character that is not visible
      ASCII or is one of the separators. */
  lemma ReadBare(pre: string, v: string, rest: string)
    requires v != "" && v[0] != '\'' && forall i :: 0 <= i < |v| ==> 33 <= v[i] as int <= 126 && v[i] !in "()<>@,;:\\\"/[]?="
    requires rest == "" || rest[0] as int <= 32 || rest[0] as int >= 127 || rest[0] in "()<>@,;:\\\"/[]?="
    ensures ReadValue(pre + v + rest, |pre|) == Value(v, |pre| + |v|, false)
  {
    var s := pre + v + rest;
    forall k | |pre| <= k < |pre| + |v| ensures IsTokenChar(s[k]) { assert s[k] == v[k - |pre|]; }
    if rest != "" { assert s[|pre| + |v|] == rest[0]; }
    assert v[0] != '"';
    assert s[|pre|..|pre| + |v|] == v;
  }

  /** A value in single quotes is read like one in double quotes, and flagged. */
  lemma ReadSingle(pre: string, v: string, rest: string)
    ensures ReadValue(pre + "'" + EscapeFor(v, '\'') + "'" + rest, |pre|)
         == Value(v, |pre| + |EscapeFor(v, '\'')| + 2, true)
  {
    hide EscapeFor, ReadQuoted;
    ReadEscapedFor(pre + "'", v, '\'', rest);
    assert "'" == ['\''];
    var s := pre + "'" + EscapeFor(v, '\'') + "'" + rest;
    assert s[|pre|] == '\'';
  }

  // ---------- any list of parameters ----------

  // A parameter as the sender gives it.
  datatype Given = Given(name: string, value: string)

  function PrintParams(ps: seq<Given>): string
    decreases |ps|
  {
    if ps == [] then "" else ";" + (" " + ps[0].name + "=\"") + (Escape(ps[0].value) + "\"" + PrintParams(ps[1..]))
  }

  predicate KnownName(name: string) {
    name == "name" || name == "filename"
  }

  /** Parameter n is unknown, or given before. */
  ghost predicate Offends(ps: seq<Given>, n: nat)
    requires n < |ps|
  {
    !KnownName(ps[n].name) || exists i :: 0 <= i < n && ps[i].name == ps[n].name
  }

  ghost predicate Accepted(ps: seq<Given>) {
    forall n :: 0 <= n < |ps| ==> !Offends(ps, n)
  }

  // Each parameter in turn is recorded, until one is refused.
  function AssignAll(ps: seq<Given>, f: Fields): (int, Fields)
    decreases |ps|
  {
    if ps == [] then (1, f)
    else
      var (rc, g) := Assign(f, ps[0].name, ps[0].value);
      if rc < 0 then (rc, g) else AssignAll(ps[1..], g)
  }

  lemma {:induction false} ParamsRead(s: string, pre: string, ps: seq<Given>, f: Fields)
    requires ps != [] && s == pre + PrintParams(ps)[1..] && forall i :: 0 <= i < |ps| ==> PlainName(ps[i].name)
    ensures ParseParams(s, |pre|, f) == AssignAll(ps, f)
    decreases |ps|
  {
    hide Escape, ReadParam, ParseParams, Assign, PrintedAt, PlainName;
    var p, rest := ps[0], PrintParams(ps[1..]);
    FirstPrinted(s, pre, ps);
    ReadPrinted(s, pre, p.name, p.value, rest, f);
    var (rc, g) := Assign(f, p.name, p.value);
    if rc < 0 {
      ParamsStop(s, |pre|, f);
    } else {
      ParamsNext(s, |pre|, f);
      if rest == "" {
        NothingGiven(ps[1..]);
        ParamsEnd(s, g);
      } else {
        var at := |s| - |rest| + 1;
        RestPrinted(s, rest);
        ParamsRead(s, s[..at], ps[1..], g);
      }
    }
  }

  lemma FirstPrinted(s: string, pre: string, ps: seq<Given>)
    requires ps != [] && s == pre + PrintParams(ps)[1..]
    ensures PrintedAt(s, pre, ps[0].name, ps[0].value, PrintParams(ps[1..]))
    ensures PrintParams(ps[1..]) == "" || PrintParams(ps[1..])[0] == ';'
    ensures |PrintParams(ps[1..])| <= |s| && s[|s| - |PrintParams(ps[1..])|..] == PrintParams(ps[1..])
  {
    hide Escape;
    var head, value, rest := " " + ps[0].name + "=\"", Escape(ps[0].value), PrintParams(ps[1..]);
    Behead(";", head, value + "\"" + rest);
    Join(pre, head, value + "\"" + rest);
    Tail(s, pre, head, value, "\"", rest);
  }

  lemma Join(a: string, b: string, c: string)
    ensures a + (b + c) == a + b + c
  {
  }

  lemma Behead(c: string, a: string, b: string)
    requires |c| == 1
    ensures (c + a + b)[1..] == a + b
  {
  }

  lemma RestPrinted(s: string, rest: string)
    requires rest != "" && |rest| <= |s| && s[|s| - |rest|..] == rest
    ensures s == s[..|s| - |rest| + 1] + rest[1..]
  {
    var n := |s| - |rest|;
    assert s == s[..n + 1] + s[n + 1..] && s[n + 1..] == s[n..][1..];
  }

  lemma NothingGiven(ps: seq<Given>)
    requires PrintParams(ps) == ""
    ensures ps == []
  {
  }

  lemma ParamsStop(s: string, i: nat, f: Fields)
    requires i < |s| && ReadParam(s, i, f).Stop?
    ensures ParseParams(s, i, f) == (ReadParam(s, i, f).rc, ReadParam(s, i, f).f)
  {
    hide ReadParam;
  }

  /** The value given for a name. */
  function ValueOf(ps: seq<Given>, name: string): (v: Option<string>)
    ensures v == None <==> forall i :: 0 <= i < |ps| ==> ps[i].name != name
    ensures v.Some? ==> exists i :: 0 <= i < |ps| && ps[i] == Given(name, v.value)
  {
    if ps == [] then None
    else
      var n := |ps| - 1;
      assert forall i :: 0 <= i < n ==> ps[..n][i] == ps[i];
      if ps[n].name == name then assert ps[n] == Given(name, ps[n].value); Some(ps[n].value) else ValueOf(ps[..n], name)
  }

  // The fields hold what the first k parameters gave.
  ghost predicate Assigned(ps: seq<Given>, k: nat, f: Fields)
    requires k <= |ps|
  {
    f.name == ValueOf(ps[..k], "name") && f.filename == ValueOf(ps[..k], "filename")
  }

  function Refusal(name: string): int {
    if name == "name" then -14 else if name == "filename" then -15 else -11
  }

  lemma AssignNext(ps: seq<Given>, k: nat, f: Fields)
    requires k < |ps| && Assigned(ps, k, f)
    ensures var (rc, g) := Assign(f, ps[k].name, ps[k].value);
            if Offends(ps, k) then rc == Refusal(ps[k].name) else rc == 1 && Assigned(ps, k + 1, g)
  {
    hide ValueOf;
    ValueOfNext(ps, k, "name");
    ValueOfNext(ps, k, "filename");
    if !KnownName(ps[k].name) {
    } else if ps[k].name == "name" {
      assert Offends(ps, k) <==> f.name != None;
    } else {
      assert Offends(ps, k) <==> f.filename != None;
    }
  }

  lemma ValueOfNext(ps: seq<Given>, k: nat, name: string)
    requires k < |ps|
    ensures ValueOf(ps[..k + 1], name) == if ps[k].name == name then Some(ps[k].value) else ValueOf(ps[..k], name)
    ensures ValueOf(ps[..k], name) != None <==> exists i :: 0 <= i < k && ps[i].name == name
  {
    assert ps[..k + 1][..k] == ps[..k];
    assert forall i :: 0 <= i < k ==> ps[..k][i] == ps[i];
  }

  lemma {:induction false} AssignedFrom(ps: seq<Given>, k: nat, f: Fields)
    requires k <= |ps| && Assigned(ps, k, f) && forall i :: 0 <= i < k ==> !Offends(ps, i)
    ensures var (rc, g) := AssignAll(ps[k..], f);
            if Accepted(ps) then rc == 1 && Assigned(ps, |ps|, g)
            else exists n :: k <= n < |ps| && FirstOffence(ps, n) && rc == Refusal(ps[n].name)
    decreases |ps| - k
  {
    hide Offends, Assign, Assigned;
    if k < |ps| {
      AssignNext(ps, k, f);
      if Offends(ps, k) {
        assert FirstOffence(ps, k);
      } else {
        assert ps[k..][1..] == ps[k + 1..];
        AssignedFrom(ps, k + 1, Assign(f, ps[k].name, ps[k].value).1);
      }
    }
  }

  ghost predicate FirstOffence(ps: seq<Given>, n: nat)
    requires n < |ps|
  {
    Offends(ps, n) && forall i :: 0 <= i < n ==> !Offends(ps, i)
  }

  /** Any list of parameters, printed and parsed: accepted if and only if all are
      name or filename and none is given twice, with exactly the values given;
      otherwise the code is that of the first parameter that is unknown (-11) or
      repeats name (-14) or filename (-15). */
  lemma ParamsExact(ps: seq<Given>)
    requires forall i :: 0 <= i < |ps| ==> PlainName(ps[i].name)
    ensures var (rc, f) := Parse("form-data" + PrintParams(ps), Fields(None, None, false));
            if Accepted(ps) then rc == 1 && f.name == ValueOf(ps, "name") && f.filename == ValueOf(ps, "filename")
            else exists n :: 0 <= n < |ps| && FirstOffence(ps, n)
                   && rc == if ps[n].name == "name" then -14 else if ps[n].name == "filename" then -15 else -11
  {
    hide Escape, PlainName, ParseParams, Parse, PrintParams, ValueOf, Accepted, AssignAll;
    var s, f := "form-data" + PrintParams(ps), Fields(None, None, false);
    assert Assigned(ps, 0, f) by { NothingAssigned(ps, f); }
    AssignedFrom(ps, 0, f);
    assert ps[0..] == ps && ps[..|ps|] == ps;
    if ps == [] {
      NoParams(f);
    } else {
      ParamsFirst(s, ps);
      FormDataFirst(s, f);
      ParamsRead(s, "form-data;", ps, f);
    }
  }

  lemma NothingAssigned(ps: seq<Given>, f: Fields)
    requires f.name == None && f.filename == None
    ensures Assigned(ps, 0, f)
  {
    assert ps[..0] == [];
  }

  lemma NoParams(f: Fields)
    ensures Parse("form-data" + PrintParams([]), f) == (1, f) && AssignAll([], f) == (1, f)
  {
    var s := "form-data" + PrintParams([]);
    assert s == "form-data" && StartsWith(s, 0, "form-data");
  }

  lemma ParamsFirst(s: string, ps: seq<Given>)
    requires ps != [] && s == "form-data" + PrintParams(ps)
    ensures |s| >= 10 && s[..10] == "form-data;" && s == "form-data;" + PrintParams(ps)[1..]
  {
    var t := PrintParams(ps);
    assert t[0] == ';' && t == [t[0]] + t[1..];
    assert s == "form-data" + [t[0]] + t[1..];
    assert "form-data" + [';'] == "form-data;";
  }
}
