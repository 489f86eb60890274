/** Serialising form fields as multipart/form-data (RFC 7578 over RFC 2046) and
    parsing them back: exactly when the fields return. */
module MultipartRoundTrip {
  import opened Wrappers
  import opened Sequences
  import opened CStrings
  import opened Tables
  import opened Multipart
  import opened MultipartParser
  import opened MultipartContent
  import opened MultipartFiles
  import CD = ContentDisposition
  import Streaming = MultipartStreaming

  // ---------- the sender ----------

  function Separator(b: string): string { "--" + b + "\r\n" }

  function Closing(b: string): string { "--" + b + "--\r\n" }

  function Header(name: string, value: string): string { name + ": " + value + "\r\n" }

  function Disposition(f: Field): string {
    Header(f.spelling, CD.Print(f.name, f.filename))
  }

  function ExtraLines(extras: seq<Extra>): string {
    if extras == [] then ""
    else ExtraLines(extras[..|extras| - 1]) + Header(extras[|extras| - 1].name, extras[|extras| - 1].value)
  }

  function Headers(f: Field): string {
    Disposition(f) + ExtraLines(f.extras) + "\r\n"
  }

  function PrintOpen(b: string, fields: seq<Field>): string {
    if fields == [] then ""
    else Separator(b) + (Headers(fields[0]) + Data(fields[0]) + PrintOpen(b, fields[1..]))
  }

  function Print(b: string, fields: seq<Field>): string {
    PrintOpen(b, fields) + Closing(b)
  }

  // Text that can stand in a header line.
  predicate OneLine(s: string) {
    forall i :: 0 <= i < |s| ==> s[i] != '\0' && s[i] != '\n'
  }

  predicate IsDisposition(name: string) {
    SameIgnoringCase(name, "Content-Disposition")
  }

  /** A header name that cannot be mistaken for anything else. */
  predicate PlainName(name: string) {
    && name != "" && name[0] != '-' && !IsSpace(name[0])
    && forall i :: 0 <= i < |name| ==> name[i] != ':' && name[i] != '\0' && name[i] != '\n'
  }

  /** Header lines without NUL or line feed that are shorter than the buffer; the
      name Content-Disposition may be written in any case. */
  predicate Printable(f: Field) {
    && OneLine(f.name) && (f.filename != None ==> OneLine(f.filename.value))
    && IsDisposition(f.spelling) && |Disposition(f)| < 4096
    && forall i :: 0 <= i < |f.extras| ==> PrintableExtra(f.extras[i])
  }

  predicate PrintableExtra(e: Extra) {
    && PlainName(e.name) && OneLine(e.value) && e.value != "" && !IsBlank(e.value[0])
    && |Header(e.name, e.value)| < 4096
  }

  // One of the first n extra headers, or Content-Disposition, has this name, in whatever case.
  ghost predicate Taken(f: Field, n: nat, name: string)
    requires n <= |f.extras|
  {
    IsDisposition(name) || exists i :: 0 <= i < n && SameIgnoringCase(name, f.extras[i].name)
  }

  /** No header is given twice. */
  ghost predicate Distinct(f: Field) {
    forall n :: 0 <= n < |f.extras| ==> !Taken(f, n, f.extras[n].name)
  }

  /** What the parser can tell apart: headers of different names, and data that is not like a boundary. */
  ghost predicate Fine(cfg: Config, f: Field) {
    Distinct(f) && Clean(cfg, Data(f))
  }

  // ---------- lines ----------

  ghost predicate Ready(s: State) {
    !Stopped(s) && s.buf == "" && s.containsLine
  }

  ghost predicate IsLine(line: string) {
    && 0 < |line| < BUF_SIZE && line[|line| - 1] == '\n'
    && forall i :: 0 <= i < |line| - 1 ==> line[i] != '\n' && line[i] != '\0'
  }

  lemma {:induction false} FeedUnbroken(cfg: Config, s: State, line: string, n: nat)
    requires Ready(s) && IsLine(line) && n < |line|
    ensures Run(cfg, s, line[..n]) == s.(buf := line[..n])
  {
    hide Flush;
    if n > 0 {
      FeedUnbroken(cfg, s, line, n - 1);
      assert line[..n][..n - 1] == line[..n - 1];
      assert line[..n - 1] + [line[n - 1]] == line[..n];
    }
  }

  lemma FeedLine(cfg: Config, s: State, line: string)
    requires Ready(s) && IsLine(line)
    ensures Run(cfg, s, line) == Flush(cfg, s.(buf := line), true, true)
  {
    hide Flush;
    FeedUnbroken(cfg, s, line, |line| - 1);
    assert line[..|line| - 1] + ['\n'] == line;
  }

  lemma {:induction false} NulFreeCStr(w: string)
    requires NulFree(w)
    ensures CStr(w) == w
    decreases |w|
  {
    if w != "" {
      assert forall i :: 0 <= i < |w[1..]| ==> w[1..][i] == w[i + 1];
      NulFreeCStr(w[1..]);
    }
  }

  // ---------- boundary lines ----------

  /** Line = dashes + boundary + tail, taken apart by index. */
  lemma BoundaryText(b: string, tail: string)
    ensures var w := "--" + b + tail;
            && |w| == 2 + |b| + |tail| && w[0] == '-' && w[1] == '-' && StartsWith(w, 2, b)
            && (forall i :: 0 <= i < |b| ==> w[2 + i] == b[i])
            && (forall i :: 0 <= i < |tail| ==> At(w, 2 + |b| + i) == tail[i])
            && At(w, |w|) == '\0'
  {
  }

  lemma JudgeBoundaryLine(cfg: Config, last: bool)
    requires ValidConfig(cfg)
    ensures var w := if last then Closing(cfg.boundary) else Separator(cfg.boundary);
            IsLine(w) && Judge(cfg, w) == Verdict.Separator(last, true)
  {
    hide CStr, StartsWith;
    var b := cfg.boundary;
    BoundaryPlain(cfg);
    var tail := if last then "--\r\n" else "\r\n";
    BoundaryText(b, tail);
    var w := "--" + b + tail;
    assert w == if last then Closing(b) else Separator(b);
    forall i | 0 <= i < |w| - 1 ensures w[i] != '\n' && w[i] != '\0' {
      if 2 <= i < 2 + |b| { assert w[i] == b[i - 2]; }
      if 2 + |b| <= i { assert w[i] == tail[i - 2 - |b|]; }
    }
    assert w[|w| - 1] == tail[|tail| - 1];
    NulFreeCStr(w);
    var e := 2 + |b|;
    assert At(w, e) == tail[0] && At(w, e + 1) == tail[1];
    if last {
      assert At(w, e + 2) == tail[2] && At(w, e + 3) == tail[3] && At(w, e + 4) == '\0';
    } else {
      assert At(w, e + 2) == '\0';
    }
  }

  /** The state behind a separator line: a new part, nothing else. */
  ghost predicate Fresh(s: State, parts: seq<Part>) {
    && Ready(s) && s.part == Some(NewPart) && !s.inData && s.reserve == "" && s.parts == parts
  }

  lemma BoundaryLineRuns(cfg: Config, s: State, last: bool)
    requires ValidConfig(cfg) && Ready(s)
    ensures var w := if last then Closing(cfg.boundary) else Separator(cfg.boundary);
            var t := ProcessBoundary(NoteLineEnd(s.(buf := w), true), last);
            Run(cfg, s, w) == t.(complete := last, boundaryCount := t.boundaryCount + 1, buf := "", containsLine := true)
  {
    hide Judge, ProcessBoundary;
    var w := if last then Closing(cfg.boundary) else Separator(cfg.boundary);
    JudgeBoundaryLine(cfg, last);
    FeedLine(cfg, s, w);
    BoundaryFrame(NoteLineEnd(s.(buf := w), true), last);
  }

  lemma FinishIgnoresBuffer(s: State, w: string, f: Flags)
    ensures FinishPart(s.(buf := w, flags := f)).parts == FinishPart(s).parts
  {
    hide Finished;
  }

  lemma FinishKeeps(s: State)
    ensures var t := FinishPart(s);
            && t.nfiles == s.nfiles && t.flags.fileLimitExceeded == s.flags.fileLimitExceeded
            && t.seenData == s.seenData && t.flags.error == s.flags.error
  {
    hide Finished;
  }

  lemma BoundaryLineClosesPart(cfg: Config, s: State, last: bool)
    requires ValidConfig(cfg) && Ready(s)
    ensures var w := if last then Closing(cfg.boundary) else Separator(cfg.boundary);
            var t := Run(cfg, s, w);
            && t.parts == FinishPart(s).parts && !t.flags.error && t.complete == last && t.seenData == s.seenData
            && t.nfiles == s.nfiles && t.flags.fileLimitExceeded == s.flags.fileLimitExceeded
            && t.boundaryCount > 0 && (!last ==> Fresh(t, t.parts))
  {
    hide Run, FinishPart, Closing, Separator;
    var w := if last then Closing(cfg.boundary) else Separator(cfg.boundary);
    BoundaryLineRuns(cfg, s, last);
    FinishIgnoresBuffer(s, w, NoteLineEnd(s, true).flags);
    FinishKeeps(NoteLineEnd(s.(buf := w), true));
  }

  // ---------- header lines ----------

  lemma NotLikeBoundary(cfg: Config, w: string)
    requires w != "" && (w[0] != '-' || |w| <= 3)
    ensures Judge(cfg, w) == NoBoundary
  {
  }

  // Two states that differ only in the part being built and in flags about style.
  ghost predicate SameBut(s: State, u: State, part: Part) {
    && u.part == Some(part) && u.parts == s.parts && u.reserve == s.reserve
    && u.nfiles == s.nfiles && u.seenData == s.seenData
    && u.flags.fileLimitExceeded == s.flags.fileLimitExceeded
  }

  /** A header line is dealt with in the state m: s with the line in the buffer,
      and possibly the flag for a boundary hidden in the line. */
  lemma HeaderLineRuns(cfg: Config, s: State, line: string) returns (m: State)
    requires Ready(s) && IsLine(line) && s.part != None && !s.inData
    requires line[0] != '-' || |line| <= 3
    ensures s.part == m.part && Ready(m.(buf := "")) && !m.inData && SameBut(s, m, s.part.value)
    ensures m.flags == s.flags.(unmatchedBoundary := m.flags.unmatchedBoundary)
    ensures var t := HeaderLine(m, line);
            Run(cfg, s, line) == if t.flags.error then t else t.(buf := "", containsLine := true)
  {
    hide Judge, HidesBoundary, HeaderLine;
    NotLikeBoundary(cfg, line);
    FeedLine(cfg, s, line);
    m := NoteUnmatched(s.(buf := line), HidesBoundary(cfg, line));
  }

  lemma IndexOfColon(name: string, rest: string)
    requires forall i :: 0 <= i < |name| ==> name[i] != ':'
    ensures ColonIndex(name + ":" + rest, 0) == |name|
  {
    var w := name + ":" + rest;
    assert w[|name|] == ':';
    assert forall i :: 0 <= i < |name| ==> w[i] == name[i];
  }

  /** A header line printed by Header, split again at its colon. */
  lemma SplitHeader(name: string, value: string)
    requires forall i :: 0 <= i < |name| ==> name[i] != ':'
    requires value != "" && !IsBlank(value[0])
    ensures var w := Header(name, value);
            && ColonIndex(w, 0) == |name| < |w| && w[..|name|] == name
            && SkipBlank(w, |name| + 1) == |name| + 2
            && Chomp(w[|name| + 2..]) == value
  {
    var w := Header(name, value);
    assert w == name + ":" + (" " + value + "\r\n");
    IndexOfColon(name, " " + value + "\r\n");
    assert w[|name| + 1] == ' ' && w[|name| + 2] == value[0];
    assert w[|name| + 2..] == value + "\r\n";
    ChompCrlf(value);
  }

  lemma ChompCrlf(value: string)
    ensures Chomp(value + "\r\n") == value
  {
    var s := value + "\r\n";
    assert s[..|s| - 2] == value;
  }

  lemma HeaderIsLine(name: string, value: string)
    requires PlainName(name) && OneLine(value) && |Header(name, value)| < BUF_SIZE
    ensures IsLine(Header(name, value)) && NulFree(Header(name, value))
    ensures Header(name, value)[0] == name[0] && |Header(name, value)| > 3
  {
    var w, n := Header(name, value), |name|;
    forall i | 0 <= i < |w| - 1 ensures w[i] != '\n' && w[i] != '\0' {
      if i < n { assert w[i] == name[i]; }
      if n + 2 <= i < n + 2 + |value| { assert w[i] == value[i - n - 2]; }
    }
  }

  lemma HeaderLineIs(m: State, w: string)
    requires m.part != None && NulFree(w) && |w| > 3 && !IsSpace(w[0])
    requires w[|w| - 2] == '\r'
    ensures HeaderLine(m, w) == NewHeader(NoteLineEnd(m, true), w)
  {
    hide NewHeader, NulFree;
    assert |"\r\n"| == 2;
  }

  lemma NewHeaderIs(m: State, name: string, value: string)
    requires m.part != None && PlainName(name) && value != "" && !IsBlank(value[0])
    requires Lookup(m.part.value.headers, name) == None
    ensures NewHeader(m, Header(name, value)) == m.(part := Some(WithHeader(m.part.value, name, value)))
  {
    hide LowerCase, Lookup, Set, Chomp, ColonIndex, SkipBlank, Header;
    SplitHeader(name, value);
  }

  function WithHeader(p: Part, name: string, value: string): Part {
    p.(headers := Set(p.headers, name, value), lastHeader := Some(name))
  }

  /** A new header line adds its value to the table, and nothing else changes. */
  lemma HeaderStored(cfg: Config, s: State, name: string, value: string)
    requires Ready(s) && s.part != None && !s.inData
    requires PlainName(name) && OneLine(value) && value != "" && !IsBlank(value[0])
    requires |Header(name, value)| < BUF_SIZE
    requires Lookup(s.part.value.headers, name) == None
    ensures var u := Run(cfg, s, Header(name, value));
            Ready(u) && !u.inData && SameBut(s, u, WithHeader(s.part.value, name, value))
  {
    hide Run, LowerCase, Lookup, Set, Header, IsLine, NulFree, HeaderLine, NewHeader, WithHeader, OneLine;
    var w := Header(name, value);
    HeaderIsLine(name, value);
    HeaderEnds(name, value);
    var m := HeaderLineRuns(cfg, s, w);
    HeaderLineIs(m, w);
    NewHeaderIs(NoteLineEnd(m, true), name, value);
  }

  /** A header that is in the table already, in whatever case, is refused. */
  lemma HeaderRepeated(cfg: Config, s: State, name: string, value: string)
    requires Ready(s) && s.part != None && !s.inData
    requires PlainName(name) && OneLine(value) && value != "" && !IsBlank(value[0])
    requires |Header(name, value)| < BUF_SIZE
    requires Lookup(s.part.value.headers, name) != None
    ensures Run(cfg, s, Header(name, value)).flags.error
  {
    hide Run, LowerCase, Lookup, Set, Header, IsLine, NulFree, HeaderLine, NewHeader, OneLine;
    var w := Header(name, value);
    HeaderIsLine(name, value);
    HeaderEnds(name, value);
    var m := HeaderLineRuns(cfg, s, w);
    HeaderLineIs(m, w);
    NewHeaderFails(NoteLineEnd(m, true), name, value);
  }

  lemma NewHeaderFails(m: State, name: string, value: string)
    requires m.part != None && PlainName(name) && value != "" && !IsBlank(value[0])
    requires Lookup(m.part.value.headers, name) != None
    ensures NewHeader(m, Header(name, value)).flags.error
  {
    hide LowerCase, Lookup, Set, Chomp, ColonIndex, SkipBlank, Header;
    SplitHeader(name, value);
  }

  lemma HeaderEnds(name: string, value: string)
    ensures var w := Header(name, value); |w| >= 2 && w[|w| - 2] == '\r'
  {
  }

  // ---------- from the empty line to the data ----------

  lemma EmptyLineRuns(cfg: Config, s: State, f: Field)
    requires Ready(s) && s.part != None && !s.inData
    requires var p := s.part.value;
             && p.name == None && p.filename == None
             && Lookup(p.headers, "Content-Disposition") == Some(CD.Print(f.name, f.filename))
    ensures var u := Run(cfg, s, "\r\n");
            Ready(u) && u.inData
            && SameBut(s, u, s.part.value.(name := Some(f.name), filename := f.filename, kind := KindOf(f), lastHeader := None))
  {
    hide Run, LowerCase, Lookup, Set, HeaderLine, EndOfHeaders, CD.Print, IsLine, KindOf;
    EmptyIsLine();
    var m := HeaderLineRuns(cfg, s, "\r\n");
    EmptyLineIs(m);
    EndOfHeadersIs(NoteLineEnd(m, true), f);
  }

  lemma EmptyIsLine()
    ensures IsLine("\r\n") && |"\r\n"| == 2
  {
  }

  lemma EmptyLineIs(m: State)
    requires m.part != None
    ensures HeaderLine(m, "\r\n") == EndOfHeaders(NoteLineEnd(m, true))
  {
    hide EndOfHeaders;
  }

  lemma EndOfHeadersIs(m: State, f: Field)
    requires m.part != None
    requires var p := m.part.value;
             && p.name == None && p.filename == None
             && Lookup(p.headers, "Content-Disposition") == Some(CD.Print(f.name, f.filename))
    ensures var u := EndOfHeaders(m);
            && u.inData && u.flags.error == m.flags.error && u.complete == m.complete
            && SameBut(m, u, m.part.value.(name := Some(f.name), filename := f.filename, kind := KindOf(f), lastHeader := None))
  {
    hide LowerCase, Lookup, Set, CD.Parse, CD.Print, Contains;
    ParsePrinted(f, m.flags.invalidQuoting);
    FilenameFound(f);
  }

  /** The quoting flag does not influence what is parsed. */
  lemma {:induction false} ParamsIgnoreFlag(s: string, i: nat, f: CD.Fields, b: bool)
    requires i <= |s|
    ensures var (rc, g) := CD.ParseParams(s, i, f); var (rc', g') := CD.ParseParams(s, i, f.(invalidQuoting := b));
            rc == rc' && g.name == g'.name && g.filename == g'.filename
    decreases |s| - i
  {
    hide CD.NameEnd, CD.ReadValue, SkipBlank, CD.ReadQuoted;
    if i < |s| {
      match (CD.ReadParam(s, i, f), CD.ReadParam(s, i, f.(invalidQuoting := b)))
      case (Next(at, g), Next(at', g')) =>
        assert at == at' && g' == g.(invalidQuoting := g'.invalidQuoting);
        ParamsIgnoreFlag(s, at, g, g'.invalidQuoting);
      case _ =>
    }
  }

  /** The quoting flag that is up already makes no difference to what is parsed. */
  lemma ParseIgnoresFlag(s: string, quoting: bool)
    ensures var (rc, g) := CD.Parse(s, CD.Fields(None, None, quoting)); var (rc', g') := CD.Parse(s, CD.Fields(None, None, false));
            rc == rc' && g.name == g'.name && g.filename == g'.filename
  {
    hide CD.ParseParams;
    if StartsWith(s, 0, "form-data") {
      var p := SkipBlank(s, 9);
      if p < |s| && s[p] == ';' {
        ParamsIgnoreFlag(s, p + 1, CD.Fields(None, None, false), quoting);
      }
    }
  }

  lemma ParsePrinted(f: Field, quoting: bool)
    ensures var (rc, g) := CD.Parse(CD.Print(f.name, f.filename), CD.Fields(None, None, quoting));
            rc == 1 && g.name == Some(f.name) && g.filename == f.filename
  {
    hide CD.Parse, CD.Print;
    CD.RoundTrip(f.name, f.filename);
    ParseIgnoresFlag(CD.Print(f.name, f.filename), quoting);
  }

  lemma PrintFile(f: Field) returns (pre: string, rest: string)
    requires f.filename != None
    ensures CD.Print(f.name, f.filename) == pre + "filename=" + rest
  {
    hide CD.Escape;
    pre := "form-data; name=\"" + CD.Escape(f.name) + "\"; ";
    rest := "\"" + CD.Escape(f.filename.value) + "\"";
  }

  lemma FilenameFound(f: Field)
    ensures f.filename != None ==> Contains(CD.Print(f.name, f.filename), "filename=")
  {
    if f.filename != None {
      hide Contains, CD.Print;
      var pre, rest := PrintFile(f);
      ContainsMiddle(pre, "filename=", rest);
    }
  }

  lemma ContainsMiddle(pre: string, text: string, rest: string)
    ensures Contains(pre + text + rest, text)
  {
    assert StartsWith(pre + text + rest, |pre|, text);
  }

  // ---------- one field ----------

  /** However it is spelled, Content-Disposition is a plain name. */
  lemma PlainSpelling(name: string)
    requires IsDisposition(name)
    ensures PlainName(name)
  {
    var text := "Content-Disposition";
    forall i | 0 <= i < |name| ensures name[i] != ':' && name[i] != '\0' && name[i] != '\n' {
      assert SameLetter(name[i], text[i]);
    }
    assert SameLetter(name[0], text[0]);
  }

  lemma {:induction false} EscapeOneLine(v: string)
    requires OneLine(v)
    ensures OneLine(CD.Escape(v))
    decreases |v|
  {
    if v != "" {
      assert forall i :: 0 <= i < |v[1..]| ==> v[1..][i] == v[i + 1];
      EscapeOneLine(v[1..]);
    }
  }

  lemma OneLineConcat(a: string, b: string)
    requires OneLine(a) && OneLine(b)
    ensures OneLine(a + b)
  {
  }

  lemma DispositionOneLine(f: Field)
    requires OneLine(f.name) && (f.filename != None ==> OneLine(f.filename.value))
    ensures var v := CD.Print(f.name, f.filename); OneLine(v) && v != "" && !IsBlank(v[0])
  {
    hide CD.Escape;
    EscapeOneLine(f.name);
    OneLineConcat("form-data; name=\"", CD.Escape(f.name));
    OneLineConcat("form-data; name=\"" + CD.Escape(f.name), "\"");
    var head := "form-data; name=\"" + CD.Escape(f.name) + "\"";
    assert head[0] == 'f';
    if f.filename != None {
      EscapeOneLine(f.filename.value);
      OneLineConcat("; filename=\"", CD.Escape(f.filename.value));
      OneLineConcat("; filename=\"" + CD.Escape(f.filename.value), "\"");
      OneLineConcat(head, "; filename=\"" + CD.Escape(f.filename.value) + "\"");
    } else {
      assert head + "" == head;
    }
  }

  lemma LookupEmpty(name: string)
    ensures Lookup(map[], name) == None
  {
  }

  /** Behind Content-Disposition and the first n extra headers of f. */
  ghost predicate HeadersRead(s: State, u: State, f: Field, n: nat)
    requires n <= |f.extras|
  {
    && Ready(u) && !u.inData && u.part != None && SameBut(s, u, u.part.value)
    && (var p := u.part.value;
        && p == NewPart.(headers := p.headers, lastHeader := p.lastHeader)
        && HeldNames(p.headers, f, n))
  }

  ghost predicate HeldNames(t: Table, f: Field, n: nat)
    requires n <= |f.extras|
  {
    && Lookup(t, "Content-Disposition") == Some(CD.Print(f.name, f.filename))
    && HeadersStored(t, f, n)
    && forall name :: Lookup(t, name) != None <==> Taken(f, n, name)
  }

  lemma FirstName(f: Field)
    requires IsDisposition(f.spelling)
    ensures HeldNames(Set(map[], f.spelling, CD.Print(f.name, f.filename)), f, 0)
  {
    hide Lookup, Set, CD.Print, SameIgnoringCase;
    var v := CD.Print(f.name, f.filename);
    forall name ensures Lookup(Set(map[], f.spelling, v), name) != None <==> Taken(f, 0, name) {
      LookupSet(map[], f.spelling, v, name);
      LookupEmpty(name);
      SameTransitive(name, f.spelling, "Content-Disposition");
    }
    LookupSet(map[], f.spelling, v, "Content-Disposition");
    SameTransitive("Content-Disposition", f.spelling, f.spelling);
  }

  lemma SameTransitive(a: string, b: string, c: string)
    ensures SameIgnoringCase(a, a) && (SameIgnoringCase(a, b) <==> SameIgnoringCase(b, a))
    ensures SameIgnoringCase(b, c) ==> (SameIgnoringCase(a, b) <==> SameIgnoringCase(a, c))
  {
    hide LowerCase, SameIgnoringCase;
    LowerCaseExact(a, a);
    LowerCaseExact(a, b);
    LowerCaseExact(b, a);
    LowerCaseExact(b, c);
    LowerCaseExact(a, c);
  }

  lemma NextName(t: Table, f: Field, n: nat)
    requires n < |f.extras| && HeldNames(t, f, n) && !Taken(f, n, f.extras[n].name)
    ensures HeldNames(Set(t, f.extras[n].name, f.extras[n].value), f, n + 1)
  {
    hide Lookup, Set, CD.Print, SameIgnoringCase;
    var e := f.extras[n];
    var u := Set(t, e.name, e.value);
    forall name ensures Lookup(u, name) != None <==> Taken(f, n + 1, name) {
      LookupSet(t, e.name, e.value, name);
    }
    LookupSet(t, e.name, e.value, "Content-Disposition");
    SameTransitive("Content-Disposition", e.name, e.name);
    forall i | 0 <= i < n + 1 ensures Lookup(u, f.extras[i].name) == Some(f.extras[i].value) {
      LookupSet(t, e.name, e.value, f.extras[i].name);
      SameTransitive(f.extras[i].name, e.name, e.name);
    }
  }

  lemma DispositionRead(cfg: Config, s: State, f: Field)
    requires Fresh(s, s.parts) && Printable(f)
    ensures HeadersRead(s, Run(cfg, s, Disposition(f)), f, 0)
  {
    hide Run, Header, CD.Print, LowerCase, Lookup, Set, PlainName, OneLine, HeldNames, IsDisposition;
    PlainSpelling(f.spelling);
    DispositionOneLine(f);
    LookupEmpty(f.spelling);
    FirstName(f);
    HeaderStored(cfg, s, f.spelling, CD.Print(f.name, f.filename));
  }

  lemma ExtraRead(cfg: Config, s: State, u: State, f: Field, n: nat)
    requires n < |f.extras| && HeadersRead(s, u, f, n) && PrintableExtra(f.extras[n])
    ensures var v := Run(cfg, u, Header(f.extras[n].name, f.extras[n].value));
            if Taken(f, n, f.extras[n].name) then v.flags.error else HeadersRead(s, v, f, n + 1)
  {
    hide Run, Header, CD.Print, LowerCase, Set, Lookup, PlainName, OneLine, HeldNames, Taken;
    var e := f.extras[n];
    NamesHeld(u.part.value.headers, f, n, e.name);
    if Taken(f, n, e.name) {
      HeaderRepeated(cfg, u, e.name, e.value);
    } else {
      NextName(u.part.value.headers, f, n);
      HeaderStored(cfg, u, e.name, e.value);
    }
  }

  lemma NamesHeld(t: Table, f: Field, n: nat, name: string)
    requires n <= |f.extras| && HeldNames(t, f, n)
    ensures Lookup(t, name) != None <==> Taken(f, n, name)
    ensures Lookup(t, "Content-Disposition") == Some(CD.Print(f.name, f.filename))
  {
  }

  /** Extra headers up to number n are stored, if none of them repeats another. */
  lemma {:induction false} ExtrasRead(cfg: Config, s: State, f: Field, n: nat)
    requires Fresh(s, s.parts) && Printable(f) && n <= |f.extras|
    requires forall i :: 0 <= i < n ==> !Taken(f, i, f.extras[i].name)
    ensures HeadersRead(s, Run(cfg, s, Disposition(f) + ExtraLines(f.extras[..n])), f, n)
  {
    hide Run, Header, Disposition, Fresh, HeadersRead, PrintableExtra, Taken, IsDisposition;
    if n == 0 {
      DispositionRead(cfg, s, f);
      assert Disposition(f) + ExtraLines(f.extras[..0]) == Disposition(f);
    } else {
      ExtrasRead(cfg, s, f, n - 1);
      ExtraRead(cfg, s, Run(cfg, s, Disposition(f) + ExtraLines(f.extras[..n - 1])), f, n - 1);
      ExtraAppended(cfg, s, f, n - 1);
    }
  }

  lemma ExtraAppended(cfg: Config, s: State, f: Field, n: nat)
    requires n < |f.extras|
    ensures Run(cfg, s, Disposition(f) + ExtraLines(f.extras[..n + 1]))
         == Run(cfg, Run(cfg, s, Disposition(f) + ExtraLines(f.extras[..n])), Header(f.extras[n].name, f.extras[n].value))
  {
    hide Run, Header, Disposition;
    var line := Header(f.extras[n].name, f.extras[n].value);
    assert f.extras[..n + 1][..n] == f.extras[..n];
    assert Disposition(f) + ExtraLines(f.extras[..n + 1]) == Disposition(f) + ExtraLines(f.extras[..n]) + line;
    Streaming.RunSplit(cfg, s, Disposition(f) + ExtraLines(f.extras[..n]), line);
  }

  lemma HeadersAreRead(cfg: Config, s: State, f: Field, first: string)
    requires Fresh(s, s.parts) && Printable(f) && Distinct(f)
    ensures Reading(cfg, Run(cfg, s, Headers(f)), f, Place(s.nfiles, s.flags.fileLimitExceeded, first), s.parts, "")
  {
    hide Run, Disposition, ExtraLines, HeadersRead, Printable, Reading, Taken;
    ExtrasRead(cfg, s, f, |f.extras|);
    assert f.extras[..|f.extras|] == f.extras;
    var lines := Disposition(f) + ExtraLines(f.extras);
    DataStarts(cfg, s, Run(cfg, s, lines), f, first);
    Streaming.RunSplit(cfg, s, lines, "\r\n");
  }

  /** A part with a header given twice, in whatever case, fails the whole body. */
  lemma RepeatedFails(cfg: Config, s: State, f: Field, more: string)
    requires Fresh(s, s.parts) && Printable(f) && !Distinct(f)
    ensures Run(cfg, s, Headers(f) + more).flags.error
  {
    hide Run, Header, Disposition, ExtraLines, HeadersRead, Printable, Taken, Fresh;
    var n := FirstRepeated(f, |f.extras|);
    ExtrasRead(cfg, s, f, n);
    assert PrintableExtra(f.extras[n]) by { ExtraPrintable(f, n); }
    ExtraRead(cfg, s, Run(cfg, s, Disposition(f) + ExtraLines(f.extras[..n])), f, n);
    ExtraAppended(cfg, s, f, n);
    var rest := LinesAfter(f, n + 1);
    var read := Disposition(f) + ExtraLines(f.extras[..n + 1]);
    assert Headers(f) + more == read + (rest + more);
    Streaming.RunSplit(cfg, s, read, rest + more);
    Streaming.StoppedSession(cfg, Session(Run(cfg, s, read), false, false), rest + more);
  }

  lemma ExtraPrintable(f: Field, n: nat)
    requires Printable(f) && n < |f.extras|
    ensures PrintableExtra(f.extras[n])
  {
  }

  lemma {:induction false} FirstRepeated(f: Field, m: nat) returns (n: nat)
    requires m <= |f.extras| && exists i :: 0 <= i < m && Taken(f, i, f.extras[i].name)
    ensures n < m && Taken(f, n, f.extras[n].name) && forall i :: 0 <= i < n ==> !Taken(f, i, f.extras[i].name)
    decreases m
  {
    if exists i :: 0 <= i < m - 1 && Taken(f, i, f.extras[i].name) {
      n := FirstRepeated(f, m - 1);
    } else {
      n := m - 1;
    }
  }

  /** What follows the first n extra headers. */
  lemma {:induction false} LinesAfter(f: Field, n: nat) returns (rest: string)
    requires n <= |f.extras|
    ensures Headers(f) == Disposition(f) + ExtraLines(f.extras[..n]) + rest
    decreases |f.extras| - n
  {
    hide Header, Disposition;
    if n == |f.extras| {
      assert f.extras[..n] == f.extras;
      rest := "\r\n";
    } else {
      rest := LinesAfter(f, n + 1);
      assert f.extras[..n + 1][..n] == f.extras[..n];
      var line := Header(f.extras[n].name, f.extras[n].value);
      assert Disposition(f) + (ExtraLines(f.extras[..n]) + line) + rest == Disposition(f) + ExtraLines(f.extras[..n]) + (line + rest);
      rest := line + rest;
    }
  }

  lemma RunNothing(cfg: Config, s: State)
    ensures Run(cfg, s, "") == s
  {
  }

  lemma KeptAtStart(cfg: Config, s: State, f: Field, first: string)
    requires s.part != None && s.inData && s.reserve == ""
    requires var p := s.part.value;
             && p.name == Some(f.name) && p.filename == f.filename && p.kind == KindOf(f)
             && p.length == 0 && p.values == [] && p.stored == None && HeadersStored(p.headers, f, |f.extras|)
    ensures Kept(cfg, s, f, Place(s.nfiles, s.flags.fileLimitExceeded, first), "")
  {
    hide Break, Body, Flatten, HeadersStored;
    BodyEmpty();
    FlattenNone<char>();
  }

  lemma ReadingAtStart(cfg: Config, s: State, f: Field, b: Place)
    requires Ready(s) && Kept(cfg, s, f, b, "")
    ensures Reading(cfg, s, f, b, s.parts, "")
  {
    hide Kept;
  }

  lemma DataStarts(cfg: Config, s: State, v: State, f: Field, first: string)
    requires HeadersRead(s, v, f, |f.extras|) && s.reserve == ""
    ensures Reading(cfg, Run(cfg, v, "\r\n"), f, Place(s.nfiles, s.flags.fileLimitExceeded, first), s.parts, "")
  {
    hide Run, LowerCase, Lookup, Set, CD.Print, Kept, Reading;
    EmptyLineRuns(cfg, v, f);
    KeptAtStart(cfg, Run(cfg, v, "\r\n"), f, first);
    ReadingAtStart(cfg, Run(cfg, v, "\r\n"), f, Place(s.nfiles, s.flags.fileLimitExceeded, first));
  }

  // ---------- what is delivered ----------

  ghost predicate Matches(p: Part, f: Field) {
    && p.name == Some(f.name) && p.filename == f.filename && p.kind == KindOf(f)
    && p.length == |f.data| && (p.kind == FormData ==> p.value == f.data)
    && HeadersStored(p.headers, f, |f.extras|)
  }

  ghost predicate Stored(p: Part, f: Field) {
    p.kind == File ==> p.stored == Some(f.data)
  }

  /** The parts found so far are the fields sent so far, and their files hold
      what the limit on files has left room for. */
  ghost predicate Delivered(cfg: Config, s: State, fields: seq<Field>) {
    && |s.parts| == |fields|
    && (forall i :: 0 <= i < |fields| ==> Matches(s.parts[i], fields[i]) && s.parts[i].stored == FileAt(cfg, fields, i))
    && s.nfiles == Opened(cfg, fields)
    && s.flags.fileLimitExceeded == Exceeded(cfg, fields)
  }

  lemma LedgerPush(cfg: Config, fields: seq<Field>, f: Field)
    ensures var b := PlaceOf(cfg, fields, f); var all := fields + [f];
            && Opened(cfg, all) == OpenedBy(cfg, f, b, Data(f)) && Exceeded(cfg, all) == ExceededBy(cfg, f, b, Data(f))
            && FileAt(cfg, all, |fields|) == OnDisk(cfg, f, b, Data(f))
            && forall i :: 0 <= i < |fields| ==> FileAt(cfg, all, i) == FileAt(cfg, fields, i)
  {
    hide Data, OnDisk, PlaceOf, OpenedBy, ExceededBy;
    var all := fields + [f];
    assert all[..|fields|] == fields;
    forall i | 0 <= i < |fields| ensures FileAt(cfg, all, i) == FileAt(cfg, fields, i) {
      assert all[..i] == fields[..i];
    }
  }

  lemma FinishedMatches(cfg: Config, s: State, f: Field, b: Place)
    requires Kept(cfg, s, f, b, Data(f))
    ensures FinishPart(s).parts == s.parts + [Finished(s.part.value)]
    ensures Matches(Finished(s.part.value), f)
    ensures Finished(s.part.value).stored == OnDisk(cfg, f, b, Data(f))
    ensures s.nfiles == OpenedBy(cfg, f, b, Data(f)) && s.flags.fileLimitExceeded == ExceededBy(cfg, f, b, Data(f))
  {
    hide Body, Break, Flatten, Data, OnDisk, HeadersStored;
    DataBody(f);
  }

  lemma DataNonempty(f: Field)
    ensures Data(f) != "" && Data(f)[|Data(f)| - 1] == '\n' && |Data(f)| == |f.data| + 2
  {
  }

  // ---------- a field whose data can be told from boundaries ----------

  lemma CleanEverywhere(cfg: Config, text: string)
    requires Clean(cfg, text)
    ensures forall j: nat :: j <= |text| ==> CleanAt(cfg, text, j)
  {
    hide BoundaryLike, Window;
  }

  /** Header lines and data of a clean field, read up to the line break in front of the next boundary. */
  lemma FieldRead(cfg: Config, s: State, f: Field)
    requires ValidConfig(cfg) && Fresh(s, s.parts) && Printable(f) && Fine(cfg, f)
    ensures var u := Run(cfg, s, Headers(f) + Data(f));
            && Ready(u) && u.parts == s.parts
            && Kept(cfg, u, f, Place(s.nfiles, s.flags.fileLimitExceeded, FirstBuffer(Data(f))), Data(f))
  {
    hide Run, Headers, Data, Printable, Fresh, Kept, Clean, LineLength, FirstBuffer, Distinct;
    var b := Place(s.nfiles, s.flags.fileLimitExceeded, FirstBuffer(Data(f)));
    HeadersAreRead(cfg, s, f, b.first);
    CleanEverywhere(cfg, Data(f));
    DataNonempty(f);
    var v := Run(cfg, s, Headers(f));
    DataKeeps(cfg, v, f, b, s.parts, Data(f), |Data(f)|);
    assert Data(f)[..|Data(f)|] == Data(f);
    Streaming.RunSplit(cfg, s, Headers(f), Data(f));
    var u := Run(cfg, v, Data(f));
    assert Data(f)[..|Data(f)| - |u.buf|] == Data(f);
  }

  // All fields have been read, the last one's part is still open.
  ghost predicate Pending(cfg: Config, s: State, fields: seq<Field>) {
    Ready(s) && Delivered(cfg, s.(parts := FinishPart(s).parts), fields)
  }

  lemma FieldPending(cfg: Config, s: State, done: seq<Field>, f: Field)
    requires ValidConfig(cfg) && Fresh(s, s.parts) && Printable(f) && Fine(cfg, f) && Delivered(cfg, s, done)
    ensures Pending(cfg, Run(cfg, s, Headers(f) + Data(f)), done + [f])
  {
    hide Run, Headers, Data, Printable, Fine, Kept, Matches, Stored, Finished, FinishPart, Fresh, ValidConfig;
    hide Opened, Exceeded, OnDisk, FileAt, OpenedBy, ExceededBy;
    LedgerPush(cfg, done, f);
    FieldRead(cfg, s, f);
    FinishedMatches(cfg, Run(cfg, s, Headers(f) + Data(f)), f, PlaceOf(cfg, done, f));
  }

  lemma PendingClosed(cfg: Config, s: State, fields: seq<Field>, last: bool)
    requires ValidConfig(cfg) && Pending(cfg, s, fields)
    ensures var t := Run(cfg, s, if last then Closing(cfg.boundary) else Separator(cfg.boundary));
            && Delivered(cfg, t, fields) && !t.flags.error && t.complete == last
            && (!last ==> Fresh(t, t.parts))
  {
    hide Run, Matches, Stored, Finished, FinishPart, Fresh, Closing, Separator, ValidConfig, Opened, Exceeded, FileAt;
    BoundaryLineClosesPart(cfg, s, last);
  }

  lemma {:induction false} AllPending(cfg: Config, s: State, done: seq<Field>, f: Field, rest: seq<Field>)
    requires ValidConfig(cfg) && Fresh(s, s.parts) && Delivered(cfg, s, done)
    requires Printable(f) && Fine(cfg, f)
    requires forall i :: 0 <= i < |rest| ==> Printable(rest[i]) && Fine(cfg, rest[i])
    ensures Pending(cfg, Run(cfg, s, Headers(f) + Data(f) + PrintOpen(cfg.boundary, rest)), done + [f] + rest)
    decreases |rest|
  {
    hide Run, Headers, Data, Printable, Fine, Delivered, Fresh, Separator, ValidConfig, Pending;
    var text := Headers(f) + Data(f);
    FieldPending(cfg, s, done, f);
    if rest == [] {
      assert done + [f] + rest == done + [f] && text + "" == text;
    } else {
      var sep := Separator(cfg.boundary);
      var more := Headers(rest[0]) + Data(rest[0]) + PrintOpen(cfg.boundary, rest[1..]);
      PendingClosed(cfg, Run(cfg, s, text), done + [f], false);
      var t := Run(cfg, Run(cfg, s, text), sep);
      AllPending(cfg, t, done + [f], rest[0], rest[1..]);
      assert done + [f] + [rest[0]] + rest[1..] == done + [f] + rest;
      Streaming.RunSplit(cfg, s, text, sep + more);
      Streaming.RunSplit(cfg, Run(cfg, s, text), sep, more);
    }
  }

  // ---------- a field whose data cannot ----------

  /** The end of the first buffer that is like a boundary. */
  lemma {:induction false} FirstUnclean(cfg: Config, text: string, m: nat) returns (j: nat)
    requires m <= |text| && !CleanAt(cfg, text, m)
    ensures 0 < j <= m && !CleanAt(cfg, text, j) && forall k: nat :: k < j ==> CleanAt(cfg, text, k)
    decreases m
  {
    hide CleanAt;
    assert CleanAt(cfg, text, 0) by { NothingUnclean(cfg, text); }
    if exists k: nat :: k < m && !CleanAt(cfg, text, k) {
      var k: nat :| k < m && !CleanAt(cfg, text, k);
      j := FirstUnclean(cfg, text, k);
    } else {
      j := m;
    }
  }

  lemma NothingUnclean(cfg: Config, text: string)
    ensures CleanAt(cfg, text, 0)
  {
    hide BoundaryLike;
  }

  lemma BoundaryLikeLength(cfg: Config, w: string)
    requires BoundaryLike(cfg, w)
    ensures |w| > 3
  {
  }

  lemma {:induction false} CutStays(cfg: Config, s: State, parts: seq<Part>, length: nat, more: string)
    requires Cut(s, parts, length)
    ensures Cut(Run(cfg, s, more), parts, length)
    decreases |more|
  {
    hide TooEarly, Flush;
    if more != "" {
      var t := Run(cfg, s, more[..|more| - 1]);
      CutStays(cfg, s, parts, length, more[..|more| - 1]);
      StepFrame(cfg, t, more[|more| - 1]);
    }
  }

  lemma FieldCut(cfg: Config, s: State, f: Field, more: string)
    requires ValidConfig(cfg) && Fresh(s, s.parts) && Printable(f) && !Fine(cfg, f)
    ensures Cut(Run(cfg, s, Headers(f) + Data(f) + more), s.parts, |f.data|)
  {
    if !Distinct(f) {
      RepeatedFails(cfg, s, f, Data(f) + more);
      assert Headers(f) + Data(f) + more == Headers(f) + (Data(f) + more);
    } else {
      DataCut(cfg, s, f, more);
    }
  }

  lemma DataCut(cfg: Config, s: State, f: Field, more: string)
    requires ValidConfig(cfg) && Fresh(s, s.parts) && Printable(f) && Distinct(f) && !Clean(cfg, Data(f))
    ensures Cut(Run(cfg, s, Headers(f) + Data(f) + more), s.parts, |f.data|)
  {
    hide Run, Headers, Data, Printable, Reading, Fresh, Window, BoundaryLike, Cut, Step;
    var text := Data(f);
    DataNonempty(f);
    var m := UncleanEnd(cfg, text);
    var j := FirstUnclean(cfg, text, m);
    var n := j - 1;
    var i := UncleanWindow(cfg, text, j);
    BoundaryLikeLength(cfg, text[i..n + 1]);
    var b := Place(s.nfiles, s.flags.fileLimitExceeded, FirstBuffer(text));
    HeadersAreRead(cfg, s, f, b.first);
    var v := Run(cfg, s, Headers(f));
    DataKeeps(cfg, v, f, b, s.parts, text, n);
    var u := Run(cfg, v, text[..n]);
    ByteCuts(cfg, u, f, b, s.parts, text, n, i, |f.data|);
    RunStep(cfg, v, text, n);
    CutStays(cfg, Run(cfg, v, text[..n + 1]), s.parts, |f.data|, text[n + 1..] + more);
    Streaming.RunSplit(cfg, v, text[..n + 1], text[n + 1..] + more);
    Streaming.RunSplit(cfg, s, Headers(f), text + more);
    assert text[..n + 1] + (text[n + 1..] + more) == text + more;
    assert Headers(f) + text + more == Headers(f) + (text + more);
  }

  lemma UncleanEnd(cfg: Config, text: string) returns (j: nat)
    requires !Clean(cfg, text)
    ensures j <= |text| && !CleanAt(cfg, text, j)
  {
    hide BoundaryLike;
    var i: nat, k: nat :| Window(text, i, k) && BoundaryLike(cfg, text[i..k]);
    j := k;
  }

  lemma UncleanWindow(cfg: Config, text: string, j: nat) returns (i: nat)
    requires j <= |text| && !CleanAt(cfg, text, j)
    ensures i < j && Window(text, i, j) && BoundaryLike(cfg, text[i..j])
  {
    hide BoundaryLike;
    i :| Window(text, i, j) && BoundaryLike(cfg, text[i..j]);
  }

  lemma RunStep(cfg: Config, s: State, text: string, n: nat)
    requires n < |text|
    ensures Run(cfg, s, text[..n + 1]) == Step(cfg, Run(cfg, s, text[..n]), text[n])
  {
    hide Step;
    assert text[..n + 1][..n] == text[..n];
  }

  // ---------- the whole body ----------

  /** The parser accepted the body and found exactly these fields. */
  ghost predicate Returned(s: State, fields: seq<Field>) {
    && s.complete && !s.flags.error
    && |s.parts| == |fields| && forall i :: 0 <= i < |fields| ==> Matches(s.parts[i], fields[i])
  }

  /** The body was refused, or one of the parts found is too short. */
  ghost predicate Spoiled(s: State, fields: seq<Field>) {
    s.flags.error || exists i :: 0 <= i < |fields| && i < |s.parts| && s.parts[i].length < |fields[i].data|
  }

  lemma SpoiledNotReturned(s: State, fields: seq<Field>)
    requires Spoiled(s, fields)
    ensures !Returned(s, fields)
  {
  }

  lemma {:induction false} SomeCut(cfg: Config, s: State, done: seq<Field>, f: Field, rest: seq<Field>, foot: string)
    requires ValidConfig(cfg) && Fresh(s, s.parts) && Delivered(cfg, s, done) && Printable(f)
    requires forall i :: 0 <= i < |rest| ==> Printable(rest[i])
    requires !Fine(cfg, f) || exists i :: 0 <= i < |rest| && !Fine(cfg, rest[i])
    ensures Spoiled(Run(cfg, s, Headers(f) + Data(f) + PrintOpen(cfg.boundary, rest) + foot), done + [f] + rest)
    decreases |rest|
  {
    hide Run, Headers, Data, Printable, Fine, Fresh, Separator, ValidConfig, Delivered, Spoiled, Pending, Cut;
    var text := Headers(f) + Data(f);
    if !Fine(cfg, f) {
      FieldCut(cfg, s, f, PrintOpen(cfg.boundary, rest) + foot);
      assert text + PrintOpen(cfg.boundary, rest) + foot == text + (PrintOpen(cfg.boundary, rest) + foot);
      CutSpoils(cfg, s, done, f, rest, Run(cfg, s, text + (PrintOpen(cfg.boundary, rest) + foot)));
    } else {
      var i :| 0 <= i < |rest| && !Fine(cfg, rest[i]);
      if i > 0 { assert rest[1..][i - 1] == rest[i]; }
      FieldPending(cfg, s, done, f);
      PendingClosed(cfg, Run(cfg, s, text), done + [f], false);
      var sep := Separator(cfg.boundary);
      var more := Headers(rest[0]) + Data(rest[0]) + PrintOpen(cfg.boundary, rest[1..]);
      SomeCut(cfg, Run(cfg, Run(cfg, s, text), sep), done + [f], rest[0], rest[1..], foot);
      assert done + [f] + [rest[0]] + rest[1..] == done + [f] + rest;
      Streaming.RunSplit(cfg, s, text, sep + (more + foot));
      Streaming.RunSplit(cfg, Run(cfg, s, text), sep, more + foot);
      assert text + PrintOpen(cfg.boundary, rest) + foot == text + (sep + (more + foot));
    }
  }

  lemma CutSpoils(cfg: Config, s: State, done: seq<Field>, f: Field, rest: seq<Field>, t: State)
    requires Delivered(cfg, s, done) && Cut(t, s.parts, |f.data|)
    ensures Spoiled(t, done + [f] + rest)
  {
    assert (done + [f] + rest)[|done|] == f;
  }

  // In front of the first boundary.
  ghost predicate AtStart(s: State) {
    Ready(s) && s.parts == [] && s.part == None && s.nfiles == 0 && !s.flags.fileLimitExceeded
  }

  lemma StartPending(cfg: Config, s: State, fields: seq<Field>)
    requires ValidConfig(cfg) && AtStart(s)
    requires forall i :: 0 <= i < |fields| ==> Printable(fields[i]) && Fine(cfg, fields[i])
    ensures Pending(cfg, Run(cfg, s, PrintOpen(cfg.boundary, fields)), fields)
    ensures fields != [] ==> Run(cfg, s, PrintOpen(cfg.boundary, fields)).boundaryCount > 0
  {
    hide Run, Headers, Data, Printable, Fine, Fresh, Separator, ValidConfig, Matches, Stored, FinishPart;
    NothingToFinish(s);
    RunNothing(cfg, s);
    if fields != [] {
      var f, rest := fields[0], fields[1..];
      var more := Headers(f) + Data(f) + PrintOpen(cfg.boundary, rest);
      BoundaryLineClosesPart(cfg, s, false);
      var t := Run(cfg, s, Separator(cfg.boundary));
      Streaming.RunSplit(cfg, s, Separator(cfg.boundary), more);
      RunFrame(cfg, t, more);
      assert [] + [f] + rest == fields;
      AllPending(cfg, t, [], f, rest);
    }
  }

  lemma StartCut(cfg: Config, s: State, fields: seq<Field>, foot: string)
    requires ValidConfig(cfg) && AtStart(s)
    requires forall i :: 0 <= i < |fields| ==> Printable(fields[i])
    requires exists i :: 0 <= i < |fields| && !Fine(cfg, fields[i])
    ensures Spoiled(Run(cfg, s, PrintOpen(cfg.boundary, fields) + foot), fields)
  {
    hide Run, Headers, Data, Printable, Fine, Fresh, Separator, ValidConfig, Matches, Stored, FinishPart, Spoiled;
    NothingToFinish(s);
    var f, rest := fields[0], fields[1..];
    var sep, more := Separator(cfg.boundary), Headers(f) + Data(f) + PrintOpen(cfg.boundary, rest);
    BoundaryLineClosesPart(cfg, s, false);
    Streaming.RunSplit(cfg, s, sep, more + foot);
    assert PrintOpen(cfg.boundary, fields) + foot == sep + (more + foot);
    assert [] + [f] + rest == fields;
    var i :| 0 <= i < |fields| && !Fine(cfg, fields[i]);
    if i > 0 { assert rest[i - 1] == fields[i]; }
    SomeCut(cfg, Run(cfg, s, sep), [], f, rest, foot);
  }

  lemma BodyOutcome(cfg: Config, s: State, fields: seq<Field>)
    requires ValidConfig(cfg) && AtStart(s) && forall i :: 0 <= i < |fields| ==> Printable(fields[i])
    ensures var t := Run(cfg, s, Print(cfg.boundary, fields));
            && (Returned(t, fields) <==> forall i :: 0 <= i < |fields| ==> Fine(cfg, fields[i]))
            && (Returned(t, fields) ==> Delivered(cfg, t, fields))
  {
    hide Run, Data, Printable, Fine, Closing, PrintOpen, ValidConfig, AtStart, Pending, Matches, Stored;
    if forall i :: 0 <= i < |fields| ==> Fine(cfg, fields[i]) {
      StartPending(cfg, s, fields);
      PendingClosed(cfg, Run(cfg, s, PrintOpen(cfg.boundary, fields)), fields, true);
      Streaming.RunSplit(cfg, s, PrintOpen(cfg.boundary, fields), Closing(cfg.boundary));
    } else {
      StartCut(cfg, s, fields, Closing(cfg.boundary));
      SpoiledNotReturned(Run(cfg, s, Print(cfg.boundary, fields)), fields);
    }
  }

  /** What a body of these fields leaves behind: the files hold what the limit on
      files has left room for, and the flag for too many files is up if the
      limit was looked at when it was used up. All files are on disk byte for
      byte if and only if the limit has room for them, and the data of the last
      one that may be opened is taken in one buffer. */
  ghost predicate FilesKept(cfg: Config, s: State, fields: seq<Field>)
    requires |s.parts| == |fields|
  {
    && (forall i :: 0 <= i < |fields| ==> s.parts[i].stored == FileAt(cfg, fields, i))
    && s.flags.fileLimitExceeded == (cfg.extractFiles && !LimitUnseen(cfg, fields))
    && (cfg.extractFiles ==>
          ((forall i :: 0 <= i < |fields| ==> Stored(s.parts[i], fields[i])) <==> FilesFit(cfg, fields)))
  }

  lemma DeliveredFiles(cfg: Config, s: State, fields: seq<Field>)
    requires Delivered(cfg, s, fields)
    ensures FilesKept(cfg, s, fields)
  {
    hide FileAt, Opened, Exceeded, FilesFit, LimitUnseen;
    ExceededExact(cfg, fields);
    if cfg.extractFiles {
      AllWhole(cfg, fields);
      forall i | 0 <= i < |fields| ensures Stored(s.parts[i], fields[i]) == Whole(cfg, fields, i) {
        assert Matches(s.parts[i], fields[i]);
      }
    }
  }

  /** Any fields, serialised with a boundary and read in any chunks, are found
      again (names, file names, kinds, lengths, and every byte of every value) if
      and only if no line of any field's data is like a boundary, as far as one
      buffer reaches. */
  lemma RoundTrip(cfg: Config, fields: seq<Field>, chunks: seq<string>)
    requires ValidConfig(cfg) && forall i :: 0 <= i < |fields| ==> Printable(fields[i])
    requires Flatten(chunks) == Print(cfg.boundary, fields)
    ensures var s := Chunks(cfg, Start, chunks).state;
            && (Returned(s, fields) <==> forall i :: 0 <= i < |fields| ==> Fine(cfg, fields[i]))
            && (Returned(s, fields) ==> FilesKept(cfg, s, fields))
  {
    hide Run, Printable, Fine, Print, ValidConfig, Matches, Data, Chunks, Delivered, FilesKept;
    var body := Print(cfg.boundary, fields);
    PrintNonempty(cfg.boundary, fields);
    Streaming.ChunkingIrrelevant(cfg, Start, chunks);
    Streaming.OneRead(cfg, Start, body);
    BodyOutcome(cfg, Init.(seenData := true), fields);
    var s := Chunks(cfg, Start, chunks).state;
    if Returned(s, fields) { DeliveredFiles(cfg, s, fields); }
  }

  /** The line break behind the closing boundary may be missing: the final call
      then takes the boundary from the buffer, with the same outcome. */
  lemma RoundTripUnterminated(cfg: Config, fields: seq<Field>, chunks: seq<string>)
    requires ValidConfig(cfg) && fields != [] && forall i :: 0 <= i < |fields| ==> Printable(fields[i])
    requires Flatten(chunks) == PrintOpen(cfg.boundary, fields) + ("--" + cfg.boundary + "--")
    ensures var (rc, s) := Complete(cfg, Chunks(cfg, Start, chunks).state);
            && (Returned(s, fields) <==> forall i :: 0 <= i < |fields| ==> Fine(cfg, fields[i]))
            && (Returned(s, fields) ==> rc == 1 && FilesKept(cfg, s, fields))
  {
    hide Run, Printable, Fine, ValidConfig, Matches, Data, Chunks, PrintOpen, Delivered, FilesKept, Complete, Spoiled;
    var open, foot := PrintOpen(cfg.boundary, fields), "--" + cfg.boundary + "--";
    Streaming.ChunkingIrrelevant(cfg, Start, chunks);
    Streaming.OneRead(cfg, Start, open + foot);
    var s := Init.(seenData := true);
    if forall i :: 0 <= i < |fields| ==> Fine(cfg, fields[i]) {
      UnterminatedRead(cfg, s, fields);
    } else {
      StartCut(cfg, s, fields, foot);
      SpoiledCompleted(cfg, Run(cfg, s, open + foot), fields);
    }
  }

  lemma SpoiledCompleted(cfg: Config, s: State, fields: seq<Field>)
    requires Spoiled(s, fields)
    ensures !Returned(Complete(cfg, s).1, fields)
  {
    hide ProcessBoundary;
    BoundaryFrame(s, true);
    SpoiledNotReturned(Complete(cfg, s).1, fields);
  }

  lemma UnterminatedRead(cfg: Config, s: State, fields: seq<Field>)
    requires ValidConfig(cfg) && fields != [] && AtStart(s) && s.seenData
    requires forall i :: 0 <= i < |fields| ==> Printable(fields[i]) && Fine(cfg, fields[i])
    ensures var (rc, t) := Complete(cfg, Run(cfg, s, PrintOpen(cfg.boundary, fields) + ("--" + cfg.boundary + "--")));
            rc == 1 && Returned(t, fields) && FilesKept(cfg, t, fields)
  {
    hide Run, Printable, Fine, ValidConfig, Matches, Data, PrintOpen, Pending, FinishPart, Judge, FilesKept, Returned;
    var open, foot := PrintOpen(cfg.boundary, fields), "--" + cfg.boundary + "--";
    StartPending(cfg, s, fields);
    var u := Run(cfg, s, open);
    RunFrame(cfg, s, open);
    Streaming.RunSplit(cfg, s, open, foot);
    JudgeBoundaryLine(cfg, true);
    assert Closing(cfg.boundary)[..|foot|] == foot;
    assert Ready(u) by { PendingReady(cfg, u, fields); }
    FeedUnbroken(cfg, u, Closing(cfg.boundary), |foot|);
    PendingFinished(cfg, u, foot, fields);
  }

  lemma PendingReady(cfg: Config, s: State, fields: seq<Field>)
    requires Pending(cfg, s, fields)
    ensures Ready(s)
  {
  }

  lemma PendingFinished(cfg: Config, s: State, w: string, fields: seq<Field>)
    requires Pending(cfg, s, fields)
    ensures var t := ProcessBoundary(s.(buf := w), true).(complete := true); Returned(t, fields) && FilesKept(cfg, t, fields)
  {
    hide Matches, Stored, Finished, FileAt, Opened, Exceeded, FilesKept;
    FinishKeeps(s.(buf := w));
    if s.part == None {} else {}
    DeliveredFiles(cfg, ProcessBoundary(s.(buf := w), true).(complete := true), fields);
  }

  lemma PrintNonempty(b: string, fields: seq<Field>)
    ensures Print(b, fields) != ""
  {
  }

  /** A caller's simple test: data without a line that starts with two dashes is clean. */
  lemma NoDashesClean(cfg: Config, f: Field)
    requires forall i :: 0 <= i < |f.data| - 1 && AtLine(f.data[..i]) ==> !(f.data[i] == '-' && f.data[i + 1] == '-')
    ensures Clean(cfg, Data(f))
  {
    hide CStr;
    var t := Data(f);
    forall i: nat, j: nat | Window(t, i, j)
      ensures !BoundaryLike(cfg, t[i..j])
    {
      if i + 1 < |f.data| {
        assert t[..i] == f.data[..i];
      }
      var w := t[i..j];
      if |CStr(w)| > 3 {
        assert CStr(w)[0] == t[i] && CStr(w)[1] == t[i + 1];
      }
    }
  }

  // ---------- a file that is cut ----------

  /** One file where one is permitted: only its first line arrives on disk, while
      its length is counted in full. */
  lemma CutFile(cfg: Config, chunks: seq<string>)
    requires cfg == Config("B", false, true, 1)
    requires Flatten(chunks) == Print("B", [Field("f", Some("x"), "Content-Disposition", [], "a\nb")])
    ensures var s := Chunks(cfg, Start, chunks).state;
            s.complete && |s.parts| == 1 && s.parts[0].length == 3 && s.parts[0].stored == Some("a")
  {
    hide Run, Print, Chunks, CD.Escape, Disposition;
    var f := Field("f", Some("x"), "Content-Disposition", [], "a\nb");
    NoDashesClean(cfg, f);
    assert Printable(f) by { ShortHeader(f); }
    RoundTrip(cfg, [f], chunks);
    var s := Chunks(cfg, Start, chunks).state;
    assert FileAt(cfg, [f], 0) == Some("a") by { FirstLineOnly(cfg, f); }
  }

  lemma ShortHeader(f: Field)
    requires f == Field("f", Some("x"), "Content-Disposition", [], "a\nb")
    ensures Printable(f)
  {
    assert CD.Escape("") == "" && "f"[1..] == "" && "x"[1..] == "";
    assert |CD.Escape("f")| == 1 && |CD.Escape("x")| == 1;
    assert |CD.Print(f.name, f.filename)| < 100;
  }

  lemma FirstLineOnly(cfg: Config, f: Field)
    requires cfg == Config("B", false, true, 1) && f == Field("f", Some("x"), "Content-Disposition", [], "a\nb")
    ensures FileAt(cfg, [f], 0) == Some("a")
  {
    var t := Data(f);
    assert t[0] == 'a' && t[1] == '\n';
    assert LineFeed(t[1..]) == 0;
    assert FirstBuffer(t) == t[..2];
    assert Body(t[..2]) == "a";
    assert Opened(cfg, [f][..0]) == 0;
  }
}
