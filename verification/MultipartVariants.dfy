/** Multipart bodies in other than the printed form: what the parser refuses, and
    what it makes of folded headers, bare line feeds and any parameters. */
module MultipartVariants {
  import opened Wrappers
  import opened CStrings
  import opened Tables
  import opened Sequences
  import opened Multipart
  import opened MultipartParser
  import opened MultipartContent
  import opened MultipartFiles
  import opened MultipartRoundTrip
  import CD = ContentDisposition
  import Streaming = MultipartStreaming

  // ---------- bodies that end too early ----------

  /** A body cut off anywhere before the end of its closing boundary is refused by
      the final call, with every field delivered so far left as it was. */
  lemma CutClosing(cfg: Config, fields: seq<Field>, chunks: seq<string>, n: nat)
    requires ValidConfig(cfg) && fields != []
    requires forall i :: 0 <= i < |fields| ==> Printable(fields[i]) && Fine(cfg, fields[i])
    requires n < |"--" + cfg.boundary + "--"|
    requires Flatten(chunks) == PrintOpen(cfg.boundary, fields) + ("--" + cfg.boundary + "--")[..n]
    ensures var s := Chunks(cfg, Start, chunks).state;
            !s.flags.error && !s.complete && Complete(cfg, s) == (-1, s)
  {
    hide Run, Printable, Fine, ValidConfig, Chunks, PrintOpen, Pending, Judge;
    var open, foot := PrintOpen(cfg.boundary, fields), "--" + cfg.boundary + "--";
    Streaming.ChunkingIrrelevant(cfg, Start, chunks);
    assert open != "" by { OpenNonempty(cfg.boundary, fields); }
    Streaming.OneRead(cfg, Start, open + foot[..n]);
    var s := Init.(seenData := true);
    StartPending(cfg, s, fields);
    var u := Run(cfg, s, open);
    RunFrame(cfg, s, open);
    Streaming.RunSplit(cfg, s, open, foot[..n]);
    JudgeBoundaryLine(cfg, true);
    assert Closing(cfg.boundary)[..n] == foot[..n];
    assert Ready(u) by { PendingReady(cfg, u, fields); }
    FeedUnbroken(cfg, u, Closing(cfg.boundary), n);
    assert |foot[..n]| < |foot|;
  }

  lemma OpenNonempty(b: string, fields: seq<Field>)
    requires fields != []
    ensures PrintOpen(b, fields) != ""
  {
  }

  // ---------- headers ----------

  /** The empty line ends the part's headers: without Content-Disposition among them the body is refused. */
  lemma NoDisposition(cfg: Config, s: State)
    requires Ready(s) && s.part != None && !s.inData && Lookup(s.part.value.headers, "Content-Disposition") == None
    ensures Run(cfg, s, "\r\n").flags.error
  {
    hide Run, Lookup, HeaderLine, IsLine;
    EmptyIsLine();
    var m := HeaderLineRuns(cfg, s, "\r\n");
    EmptyLineIs(m);
  }

  /** A line that is not a header: no colon, or nothing in front of it. */
  lemma NoHeader(cfg: Config, s: State, line: string)
    requires Ready(s) && s.part != None && !s.inData && IsLine(line) && |line| > 3 && line[|line| - 2] == '\r'
    requires line[0] != '-' && !IsSpace(line[0])
    requires line[0] == ':' || forall i :: 0 <= i < |line| ==> line[i] != ':'
    ensures Run(cfg, s, line).flags.error
  {
    hide Run, HeaderLine, Lookup, Set, Chomp;
    var m := HeaderLineRuns(cfg, s, line);
    HeaderLineIs(m, line);
    var c := ColonIndex(line, 0);
  }

  /** A header line that does not fit the buffer. */
  lemma LongHeader(cfg: Config, s: State, line: string)
    requires Ready(s) && s.part != None && !s.inData && |line| == 4096 && line[0] != '-'
    requires forall i :: 0 <= i < |line| - 1 ==> line[i] != '\n' && line[i] != '\0'
    ensures Run(cfg, s, line).flags.error
  {
    hide Judge, HidesBoundary, Run, Flush;
    var most := line[..4094];
    var full := most + "\n";
    forall i | 0 <= i < |full| - 1 ensures full[i] != '\n' && full[i] != '\0' { assert full[i] == line[i]; }
    FeedUnbroken(cfg, s, full, 4094);
    assert full[..4094] == most;
    RunStep(cfg, s, line, 4094);
    RunStep(cfg, s, line, 4095);
    assert line[..4096] == line && most + [line[4094]] == line[..4095] && line[..4095] + [line[4095]] == line;
    BufferRefused(cfg, s.(buf := line[..4095]), false);
    BufferRefused(cfg, s.(buf := line), line[4095] == '\n');
  }

  lemma BufferRefused(cfg: Config, s: State, newline: bool)
    requires s.containsLine && s.part != None && !s.inData && s.buf != "" && s.buf[0] != '-'
    ensures Flush(cfg, s, newline, false).flags.error
  {
    hide Judge, HidesBoundary;
    NotLikeBoundary(cfg, s.buf);
  }

  // White space that can start a line.
  predicate FoldLead(lead: string) {
    lead != "" && forall i :: 0 <= i < |lead| ==>
      lead[i] == ' ' || lead[i] == '\t' || lead[i] == 11 as char || lead[i] == 12 as char || lead[i] == '\r'
  }

  // White space other than spaces and tabs.
  predicate OddLead(lead: string) {
    exists i :: 0 <= i < |lead| && lead[i] != ' ' && lead[i] != '\t'
  }

  /** A line that starts with white space continues the header before it. Without
      one the body is refused, as it is when the value gets longer than 4096
      bytes; otherwise the line is joined to the value with one space. White
      space other than spaces and tabs is flagged: all of it, but only the first
      character when there is no header to continue. */
  lemma FoldedStored(cfg: Config, s: State, name: string, value: string, lead: string, more: string)
    requires Ready(s) && FoldLead(lead) && s.part != None && !s.inData
    requires s.part.value.lastHeader != None ==>
      s.part.value.lastHeader == Some(name) && Lookup(s.part.value.headers, name) == Some(value)
    requires OneLine(more) && more != "" && !IsSpace(more[0]) && |lead| + |more| + 2 < 4096
    ensures var u := Run(cfg, s, lead + more + "\r\n");
            && u.flags.headerFolding
            && (u.flags.error <==> s.part.value.lastHeader == None || |value| + 1 + |more| > 4096)
            && (u.flags.invalidHeaderFolding <==>
                  s.flags.invalidHeaderFolding || OddLead(if s.part.value.lastHeader == None then lead[..1] else lead))
            && (!u.flags.error ==>
                  && Ready(u) && !u.inData && u.part != None
                  && Lookup(u.part.value.headers, name) == Some(value + " " + more)
                  && forall other :: !SameIgnoringCase(other, name) ==>
                       Lookup(u.part.value.headers, other) == Lookup(s.part.value.headers, other))
  {
    hide Run, HeaderLine, Lookup, Set, FoldHeader;
    var line := lead + more + "\r\n";
    ContinuationIsLine(lead, more);
    var m := HeaderLineRuns(cfg, s, line);
    assert m.flags.invalidHeaderFolding == s.flags.invalidHeaderFolding;
    ContinuationIs(m, line, lead);
    if s.part.value.lastHeader == None {
      FirstLineFolds(NoteLineEnd(m, true), lead, more);
      assert OddLead(lead[..1]) <==> lead[0] != ' ' && lead[0] != '\t' by { FirstLead(lead); }
    } else {
      ContinuationFolds(NoteLineEnd(m, true), name, value, lead, more);
      var t := Set(s.part.value.headers, name, value + " " + more);
      forall other ensures Lookup(t, other) == if SameIgnoringCase(other, name) then Some(value + " " + more)
                                               else Lookup(s.part.value.headers, other)
      {
        LookupSet(s.part.value.headers, name, value + " " + more, other);
      }
      assert SameIgnoringCase(name, name);
    }
  }

  lemma FirstLead(lead: string)
    requires lead != ""
    ensures OddLead(lead[..1]) <==> lead[0] != ' ' && lead[0] != '\t'
  {
    assert lead[..1][0] == lead[0];
  }

  lemma ContinuationIsLine(lead: string, more: string)
    requires OneLine(more) && |lead| + |more| + 2 < 4096 && FoldLead(lead)
    ensures var line := lead + more + "\r\n"; IsLine(line) && NulFree(line) && |line| >= |lead| + 2 && line[..|lead|] == lead && line[|line| - 2] == '\r'
  {
    var line := lead + more + "\r\n";
    forall i | 0 <= i < |line| - 1 ensures line[i] != '\n' && line[i] != '\0' {
      if i < |lead| { assert line[i] == lead[i]; }
      if |lead| <= i < |lead| + |more| { assert line[i] == more[i - |lead|]; }
    }
  }

  lemma ContinuationIs(m: State, w: string, lead: string)
    requires m.part != None && NulFree(w) && |w| > 3 && FoldLead(lead) && |lead| < |w| && w[..|lead|] == lead && w[|w| - 2] == '\r'
    ensures HeaderLine(m, w) == FoldHeader(NoteLineEnd(m, true), w)
  {
    hide FoldHeader, NulFree;
    assert |"\r\n"| == 2;
    assert w[0] == lead[0];
  }

  lemma FirstLineFolds(m: State, lead: string, more: string)
    requires m.part != None && m.part.value.lastHeader == None && FoldLead(lead)
    ensures var t := FoldHeader(m, lead + more + "\r\n");
            && t.flags.error && t.flags.headerFolding
            && (t.flags.invalidHeaderFolding <==> m.flags.invalidHeaderFolding || (lead[0] != ' ' && lead[0] != '\t'))
  {
    hide Lookup, Set, Joined, SkipSpace, OddIndent;
    assert (lead + more + "\r\n")[0] == lead[0];
  }

  lemma ContinuationFolds(m: State, name: string, value: string, lead: string, more: string)
    requires FoldLead(lead) && m.part != None && m.part.value.lastHeader == Some(name)
    requires Lookup(m.part.value.headers, name) == Some(value) && more != "" && !IsSpace(more[0])
    ensures var t := FoldHeader(m, lead + more + "\r\n");
            && t.flags.headerFolding && t.flags.error == (m.flags.error || |value| + 1 + |more| > 4096)
            && (t.flags.invalidHeaderFolding <==> m.flags.invalidHeaderFolding || OddLead(lead))
            && t == m.(part := Some(m.part.value.(headers := Set(m.part.value.headers, name, value + " " + more))), flags := t.flags)
  {
    hide Lookup, Set, Joined, OddIndent, OddLead, SkipSpace;
    JoinedLine(value, lead, more);
    IndentOf(lead, more);
  }

  /** The indentation is what precedes the first character that is no white space. */
  lemma IndentOf(lead: string, more: string)
    requires FoldLead(lead) && more != "" && !IsSpace(more[0])
    ensures var line := lead + more + "\r\n";
            && SkipSpace(line, 0) == |lead| && line[0] == lead[0]
            && (OddIndent(line, |lead|) <==> OddLead(lead)) && (!IsBlank(lead[0]) ==> OddLead(lead))
  {
    var line := lead + more + "\r\n";
    assert line[|lead|] == more[0];
    forall i | 0 <= i < |lead| ensures IsSpace(line[i]) && line[i] == lead[i] {}
    hide SkipSpace;
    var d := SkipSpace(line, 0);
    assert d == |lead|;
    if OddLead(lead) {
      var i :| 0 <= i < |lead| && lead[i] != ' ' && lead[i] != '\t';
      assert !IsBlank(line[i]);
    }
    if OddIndent(line, |lead|) {
      var i :| 0 <= i < |lead| && !IsBlank(line[i]);
      assert lead[i] != ' ' && lead[i] != '\t';
    }
  }

  lemma JoinedLine(value: string, lead: string, more: string)
    ensures Joined(value, (lead + more + "\r\n")[|lead|..]) == value + " " + more
  {
    assert (lead + more + "\r\n")[|lead|..] == more + "\r\n";
    ChompCrlf(more);
  }

  /** A file name is accepted only if the header holds it in the form "filename=". */
  lemma FilenameHidden(cfg: Config, s: State, text: string)
    requires Ready(s) && s.part != None && !s.inData && Lookup(s.part.value.headers, "Content-Disposition") == Some(text)
    requires forall i :: 0 <= i <= |text| ==> !StartsWith(text, i, "filename=")
    requires var p := s.part.value;
             forall q :: CD.Parse(text, CD.Fields(p.name, p.filename, q)).1.filename != None
    ensures Run(cfg, s, "\r\n").flags.error
  {
    hide Run, Lookup, HeaderLine, IsLine, CD.Parse;
    EmptyIsLine();
    var m := HeaderLineRuns(cfg, s, "\r\n");
    EmptyLineIs(m);
  }

  /** A boundary in front of the end of a part's headers drops the part, and is flagged. */
  lemma UnnamedDropped(cfg: Config, s: State, last: bool)
    requires ValidConfig(cfg) && Ready(s) && s.part != None && s.part.value.name == None
    ensures var t := Run(cfg, s, if last then Closing(cfg.boundary) else MultipartRoundTrip.Separator(cfg.boundary));
            t.parts == s.parts && t.flags.invalidPart && t.complete == last && !t.flags.error
  {
    hide Run, Judge;
    BoundaryLineRuns(cfg, s, last);
  }

  // ---------- Content-Disposition with any parameters ----------

  function DispositionText(ps: seq<CD.Given>): string {
    "form-data" + CD.PrintParams(ps)
  }

  /** The name is given, and nothing is unknown or given twice. */
  ghost predicate NamesPart(ps: seq<CD.Given>) {
    CD.Accepted(ps) && CD.ValueOf(ps, "name") != None
  }

  /** A part whose headers are one Content-Disposition, in whatever case, with any
      parameters: accepted if and only if the name is given and nothing is unknown
      or given twice. It is a file if and only if a file name is given. */
  lemma PartHeaderExact(cfg: Config, s: State, spelling: string, ps: seq<CD.Given>)
    requires Fresh(s, s.parts) && IsDisposition(spelling)
    requires forall i :: 0 <= i < |ps| ==> CD.PlainName(ps[i].name)
    requires OneLine(DispositionText(ps)) && |Header(spelling, DispositionText(ps))| < 4096
    ensures var u := Run(cfg, s, Header(spelling, DispositionText(ps)) + "\r\n");
            && (u.flags.error <==> !NamesPart(ps))
            && (NamesPart(ps) ==>
                  && u.inData && u.part != None && u.part.value.name == CD.ValueOf(ps, "name")
                  && u.part.value.filename == CD.ValueOf(ps, "filename")
                  && u.part.value.kind == if CD.ValueOf(ps, "filename") == None then FormData else File)
  {
    hide Run, Header, DispositionText, PlainName, OneLine, Lookup, Set, IsDisposition, CD.PlainName, NamesPart, HeaderLine;
    var text := DispositionText(ps);
    PlainSpelling(spelling);
    LookupEmpty(spelling);
    TextStarts(ps);
    HeaderStored(cfg, s, spelling, text);
    var t := Run(cfg, s, Header(spelling, text));
    DispositionFound(spelling, text);
    EmptyIsLine();
    var m := HeaderLineRuns(cfg, t, "\r\n");
    EmptyLineIs(m);
    HeadersEnd(NoteLineEnd(m, true), ps);
    Streaming.RunSplit(cfg, s, Header(spelling, text), "\r\n");
  }

  lemma TextStarts(ps: seq<CD.Given>)
    ensures DispositionText(ps) != "" && !IsBlank(DispositionText(ps)[0])
  {
    hide CD.PrintParams;
  }

  lemma DispositionFound(spelling: string, text: string)
    requires IsDisposition(spelling)
    ensures Lookup(Set(map[], spelling, text), "Content-Disposition") == Some(text)
  {
    hide Lookup, Set;
    LookupSet(map[], spelling, text, "Content-Disposition");
    SameTransitive("Content-Disposition", spelling, spelling);
  }

  lemma HeadersEnd(m: State, ps: seq<CD.Given>)
    requires m.part != None && !m.flags.error && m.part.value.name == None && m.part.value.filename == None
    requires m.part.value.kind == FormData
    requires Lookup(m.part.value.headers, "Content-Disposition") == Some(DispositionText(ps))
    requires forall i :: 0 <= i < |ps| ==> CD.PlainName(ps[i].name)
    ensures var u := EndOfHeaders(m);
            && (u.flags.error <==> !NamesPart(ps))
            && (NamesPart(ps) ==>
                  && u.inData && u.part != None && u.part.value.name == CD.ValueOf(ps, "name")
                  && u.part.value.filename == CD.ValueOf(ps, "filename")
                  && u.part.value.kind == if CD.ValueOf(ps, "filename") == None then FormData else File)
  {
    hide Lookup, CD.Parse, Contains, DispositionText, CD.PlainName, CD.ValueOf, CD.Accepted, EndOfHeaders;
    DispositionParsed(ps, m.flags.invalidQuoting);
    if CD.ValueOf(ps, "filename") != None { FilenamePrinted(ps); }
    EndOfHeadersCases(m, DispositionText(ps));
  }

  lemma EndOfHeadersCases(m: State, text: string)
    requires m.part != None && !m.flags.error && Lookup(m.part.value.headers, "Content-Disposition") == Some(text)
    ensures var p := m.part.value;
            var (rc, f) := CD.Parse(text, CD.Fields(p.name, p.filename, m.flags.invalidQuoting));
            var u := EndOfHeaders(m);
            var bad := rc < 0 || f.name == None || (f.filename != None && !Contains(text, "filename="));
            && u.flags.error == bad && u.part != None
            && (!bad ==> u.inData && u.part.value.name == f.name && u.part.value.filename == f.filename
                         && u.part.value.kind == if f.filename != None then File else FormData)
  {
    hide Lookup, CD.Parse, Contains;
  }

  lemma DispositionParsed(ps: seq<CD.Given>, quoting: bool)
    requires forall i :: 0 <= i < |ps| ==> CD.PlainName(ps[i].name)
    ensures var (rc, g) := CD.Parse(DispositionText(ps), CD.Fields(None, None, quoting));
            if CD.Accepted(ps) then rc == 1 && g.name == CD.ValueOf(ps, "name") && g.filename == CD.ValueOf(ps, "filename")
            else rc < 0
  {
    hide CD.Parse, CD.PrintParams, CD.PlainName, CD.ValueOf, CD.Accepted, CD.FirstOffence;
    ParseIgnoresFlag(DispositionText(ps), quoting);
    CD.ParamsExact(ps);
  }

  /** A file name that is given stands in the text behind "filename=". */
  lemma FilenamePrinted(ps: seq<CD.Given>)
    requires CD.ValueOf(ps, "filename") != None
    ensures Contains(DispositionText(ps), "filename=")
  {
    hide CD.PrintParams, Contains;
    var n :| 0 <= n < |ps| && ps[n] == CD.Given("filename", CD.ValueOf(ps, "filename").value);
    var pre, rest := FilenameAt(ps, n);
    assert DispositionText(ps) == ("form-data" + pre) + "filename=" + rest;
    ContainsMiddle("form-data" + pre, "filename=", rest);
  }

  lemma {:induction false} FilenameAt(ps: seq<CD.Given>, n: nat) returns (pre: string, rest: string)
    requires n < |ps| && ps[n].name == "filename"
    ensures CD.PrintParams(ps) == pre + "filename=" + rest
    decreases n
  {
    hide CD.Escape;
    if n == 0 {
      pre, rest := "; ", "\"" + (CD.Escape(ps[0].value) + "\"" + CD.PrintParams(ps[1..]));
      Unquote(CD.Escape(ps[0].value) + "\"" + CD.PrintParams(ps[1..]));
    } else {
      var pre', rest' := FilenameAt(ps[1..], n - 1);
      var head := ";" + (" " + ps[0].name + "=\"") + (CD.Escape(ps[0].value) + "\"");
      pre, rest := head + pre', rest';
      Reassociate(";" + (" " + ps[0].name + "=\""), CD.Escape(ps[0].value), "\"", pre', "filename=", rest');
    }
  }

  lemma Unquote(tail: string)
    ensures ";" + (" " + "filename" + "=\"") + tail == "; " + "filename=" + ("\"" + tail)
  {
  }

  lemma Reassociate(a: string, b: string, q: string, c: string, d: string, e: string)
    ensures a + (b + q + (c + d + e)) == a + (b + q) + c + d + e
  {
  }

  // ---------- line breaks ----------

  function BoundaryTail(last: bool, crlf: bool): string {
    (if last then "--" else "") + (if crlf then "\r\n" else "\n")
  }

  /** A boundary line with either line break: it ends the part, the body only with
      two more dashes, and raises the flag for its own kind of line break alone. */
  lemma BoundaryLineFlags(cfg: Config, s: State, last: bool, crlf: bool)
    requires ValidConfig(cfg) && Ready(s)
    ensures var t := Run(cfg, s, "--" + cfg.boundary + BoundaryTail(last, crlf));
            && !t.flags.error && t.complete == last && t.part == (if last then None else Some(NewPart))
            && t.flags.crlfLine == (s.flags.crlfLine || crlf) && t.flags.lfLine == (s.flags.lfLine || !crlf)
  {
    hide Judge, Run, Finished;
    var w := "--" + cfg.boundary + BoundaryTail(last, crlf);
    JudgeEitherBreak(cfg, last, crlf);
    FeedLine(cfg, s, w);
  }

  lemma JudgeEitherBreak(cfg: Config, last: bool, crlf: bool)
    requires ValidConfig(cfg)
    ensures var w := "--" + cfg.boundary + BoundaryTail(last, crlf);
            IsLine(w) && Judge(cfg, w) == Verdict.Separator(last, crlf)
  {
    hide CStr, StartsWith;
    var b, tail := cfg.boundary, BoundaryTail(last, crlf);
    BoundaryPlain(cfg);
    BoundaryText(b, tail);
    var w := "--" + b + tail;
    forall i | 0 <= i < |w| - 1 ensures w[i] != '\n' && w[i] != '\0' {
      if 2 <= i < 2 + |b| { assert w[i] == b[i - 2]; }
      if 2 + |b| <= i { assert At(w, 2 + |b| + (i - 2 - |b|)) == tail[i - 2 - |b|]; }
    }
    assert w[|w| - 1] == tail[|tail| - 1];
    NulFreeCStr(w);
    var e := 2 + |b|;
    assert At(w, e) == tail[0];
    if |tail| > 1 { assert At(w, e + 1) == tail[1]; } else { assert At(w, e + 1) == '\0'; }
    if |tail| > 2 { assert At(w, e + 2) == tail[2]; } else { assert |tail| == 2 ==> At(w, e + 2) == '\0'; }
    if |tail| > 3 { assert At(w, e + 3) == tail[3] && At(w, e + 4) == '\0'; } else { assert |tail| == 3 ==> At(w, e + 3) == '\0'; }
  }

  /** A header line raises the flag for its own kind of line break alone. */
  lemma HeaderLineFlags(s: State, w: string)
    requires s.part != None && |w| > 0 && NulFree(w)
    ensures var t := HeaderLine(s, w);
            var crlf := |w| > 1 && w[|w| - 2] == '\r';
            && t.flags.crlfLine == (s.flags.crlfLine || crlf) && t.flags.lfLine == (s.flags.lfLine || !crlf)
  {
    hide EndOfHeaders, FoldHeader, NewHeader, NulFree;
    var t := NoteLineEnd(s, |w| > 1 && w[|w| - 2] == '\r');
    if w == "\r\n" || w == "\n" {
      EmptyLineBreaks(t);
    } else if IsSpace(w[0]) {
      FoldBreaks(t, w);
    } else {
      HeaderBreaks(t, w);
    }
  }

  predicate SameBreaks(s: State, t: State) {
    && t.flags.crlfLine == s.flags.crlfLine && t.flags.lfLine == s.flags.lfLine
    && t.flags.unmatchedBoundary == s.flags.unmatchedBoundary
  }

  lemma EmptyLineBreaks(s: State)
    requires s.part != None
    ensures SameBreaks(s, EndOfHeaders(s))
  {
    hide CD.Parse, Lookup, Contains;
    if Lookup(s.part.value.headers, "Content-Disposition") == None {} else {}
  }

  lemma FoldBreaks(s: State, w: string)
    requires s.part != None && w != ""
    ensures SameBreaks(s, FoldHeader(s, w))
  {
    hide Lookup, Set, Joined, OddIndent, SkipSpace;
    if s.part.value.lastHeader == None {} else {}
  }

  lemma HeaderBreaks(s: State, w: string)
    requires s.part != None
    ensures SameBreaks(s, NewHeader(s, w))
  {
    hide Lookup, Set, Chomp, SkipBlank, ColonIndex;
  }

  lemma ContentUnmatched(cfg: Config, s: State, w: string, whole: bool)
    requires w != ""
    ensures Content(cfg, s, w, whole).flags.unmatchedBoundary == s.flags.unmatchedBoundary
  {
    hide EndOfHeaders, FoldHeader, NewHeader, NulFree, BreakLen;
    if s.part != None && !s.inData && whole && NulFree(w) {
      var t := NoteLineEnd(s, |w| > 1 && w[|w| - 2] == '\r');
      EmptyLineBreaks(t);
      FoldBreaks(t, w);
      HeaderBreaks(t, w);
    }
  }

  /** A line that is not taken for a boundary raises the flag for unmatched
      boundaries if and only if it starts with two dashes and is longer than
      three bytes (up to a NUL), or holds two dashes and the boundary anywhere. */
  lemma UnmatchedExact(cfg: Config, s: State, w: string, whole: bool)
    requires ValidConfig(cfg) && w != "" && s.containsLine && !BoundaryLike(cfg, w)
    ensures Process(cfg, s, w, whole).flags.unmatchedBoundary <==>
      || s.flags.unmatchedBoundary
      || (var z := CStr(w); |z| > 3 && z[0] == '-' && z[1] == '-')
      || exists i :: 0 <= i <= |w| && StartsWith(w, i, "--") && StartsWith(w, i + 2, cfg.boundary)
  {
    hide BoundaryLike, Content, StartsWith, OtherwiseMalformed, CStr;
    JudgeExact(cfg, w);
    ContentUnmatched(cfg, NoteUnmatched(s, true), w, whole);
    ContentUnmatched(cfg, NoteUnmatched(s, HidesBoundary(cfg, w)), w, whole);
  }

  // ---------- data in front of the first boundary ----------

  lemma PartStays(cfg: Config, s: State, c: char)
    requires s.part != None && !Stopped(Step(cfg, s, c))
    ensures Step(cfg, s, c).part != None
  {
    hide Judge, HidesBoundary, HeaderLine, DataLine;
    if TooEarly(s, c) {
      FlushKeepsPart(cfg, s, false, false);
    } else if c == '\n' || |s.buf| + 1 >= BUF_SIZE {
      FlushKeepsPart(cfg, s.(buf := s.buf + [c]), c == '\n', |s.buf| + 1 < BUF_SIZE);
    }
  }

  lemma FlushKeepsPart(cfg: Config, s: State, newline: bool, whole: bool)
    requires s.part != None && s.buf != "" && !Stopped(Flush(cfg, s, newline, whole))
    ensures Flush(cfg, s, newline, whole).part != None
  {
    hide Judge, HidesBoundary, Content;
    if !s.containsLine {
      ContentKeepsPart(cfg, s, s.buf, whole);
    } else {
      match Judge(cfg, s.buf)
      case Separator(last, crlf) =>
      case Malformed =>
      case Unmatched => ContentKeepsPart(cfg, NoteUnmatched(s, true), s.buf, whole);
      case NoBoundary => ContentKeepsPart(cfg, NoteUnmatched(s, HidesBoundary(cfg, s.buf)), s.buf, whole);
    }
  }

  lemma ContentKeepsPart(cfg: Config, s: State, w: string, whole: bool)
    requires s.part != None && w != ""
    ensures Content(cfg, s, w, whole).part != None
  {
    hide HeaderLine, BreakLen;
    HeaderFrame(s, w);
  }

  /** Once there is a part, nothing counts as data in front of the first boundary any more. */
  lemma {:induction false} InsideParts(cfg: Config, f: Session, input: string)
    requires f.state.part != None
    ensures var g := RunSession(cfg, f, input);
            g.dataBefore == f.dataBefore && g.dataAfter == f.dataAfter && (!Stopped(g.state) ==> g.state.part != None)
    decreases |input|
  {
    hide Step, Ignores, Run;
    if input != "" {
      var before, c := input[..|input| - 1], input[|input| - 1];
      InsideParts(cfg, f, before);
      var g := RunSession(cfg, f, before);
      if Stopped(g.state) {
        StoppedStep(cfg, g.state, c);
      } else {
        IgnoresOutside(cfg, g.state, c);
        if !Stopped(Step(cfg, g.state, c)) { PartStays(cfg, g.state, c); }
      }
    }
  }

  lemma StoppedStep(cfg: Config, s: State, c: char)
    requires Stopped(s)
    ensures Step(cfg, s, c) == s
  {
  }

  lemma IgnoresOutside(cfg: Config, s: State, c: char)
    requires s.part != None
    ensures !StepIgnores(cfg, s, c)
  {
  }

  /** A line that starts with the buffer empty: only its last byte can be ignored. */
  lemma {:induction false} LineSession(cfg: Config, f: Session, line: string, n: nat)
    requires Ready(f.state) && IsLine(line) && n < |line|
    ensures RunSession(cfg, f, line[..n]) == f.(state := f.state.(buf := line[..n]))
  {
    hide Ignores, Step, Run;
    if n > 0 {
      LineSession(cfg, f, line, n - 1);
      FeedUnbroken(cfg, f.state, line, n);
      assert line[..n][..n - 1] == line[..n - 1];
    }
  }

  lemma LineEnds(cfg: Config, f: Session, line: string)
    requires Ready(f.state) && IsLine(line)
    ensures var g := RunSession(cfg, f, line);
            && g.dataBefore == (f.dataBefore || Ignores(cfg, f.state.(buf := line), line))
            && g.dataAfter == f.dataAfter
  {
    hide Ignores, Step, Run;
    LineSession(cfg, f, line, |line| - 1);
    assert line[..|line| - 1] + [line[|line| - 1]] == line;
  }

  // A line of text in front of the first boundary.
  predicate PreambleLine(line: string) {
    && 0 < |line| < 4096 && line[|line| - 1] == '\n' && line[0] != '-'
    && forall i :: 0 <= i < |line| - 1 ==> line[i] != '\n' && line[i] != '\0'
  }

  lemma PreambleLineRead(cfg: Config, f: Session, line: string)
    requires AtStart(f.state) && PreambleLine(line)
    ensures var g := RunSession(cfg, f, line);
            AtStart(g.state) && g.state.seenData == f.state.seenData && g.dataBefore && g.dataAfter == f.dataAfter
  {
    hide Judge, HidesBoundary, Run;
    NotLikeBoundary(cfg, line);
    LineEnds(cfg, f, line);
    FeedLine(cfg, f.state, line);
  }

  lemma {:induction false} PreambleRead(cfg: Config, f: Session, lines: seq<string>)
    requires AtStart(f.state) && forall i :: 0 <= i < |lines| ==> PreambleLine(lines[i])
    ensures var g := RunSession(cfg, f, Flatten(lines));
            && AtStart(g.state) && g.state.seenData == f.state.seenData
            && g.dataBefore == (f.dataBefore || lines != []) && g.dataAfter == f.dataAfter
    decreases |lines|
  {
    hide AtStart, PreambleLine, Run, SessionStep;
    if lines == [] {
      FlattenNone<char>();
    } else {
      var n := |lines| - 1;
      PreambleRead(cfg, f, lines[..n]);
      PreambleLineRead(cfg, RunSession(cfg, f, Flatten(lines[..n])), lines[n]);
      Streaming.SessionSplit(cfg, f, Flatten(lines[..n]), lines[n]);
    }
  }

  /** In the printed body itself nothing is ignored. */
  lemma PrintedInside(cfg: Config, f: Session, fields: seq<Field>)
    requires ValidConfig(cfg) && AtStart(f.state)
    ensures var g := RunSession(cfg, f, Print(cfg.boundary, fields)); g.dataBefore == f.dataBefore && g.dataAfter == f.dataAfter
  {
    hide Run, RunSession, Judge, Headers, Data, PrintOpen, Fresh, FinishPart;
    var last := fields == [];
    var line := if last then Closing(cfg.boundary) else MultipartRoundTrip.Separator(cfg.boundary);
    var rest := PrintedRest(cfg.boundary, fields);
    JudgeBoundaryLine(cfg, last);
    LineEnds(cfg, f, line);
    BoundaryLineClosesPart(cfg, f.state, last);
    Streaming.SessionSplit(cfg, f, line, rest);
    var g := RunSession(cfg, f, line);
    if last {
      Streaming.StoppedSession(cfg, g, rest);
    } else {
      assert g.state.part != None by { FreshHasPart(g.state); }
      InsideParts(cfg, g, rest);
    }
  }

  lemma FreshHasPart(s: State)
    requires Fresh(s, s.parts)
    ensures s.part != None
  {
  }

  lemma PrintedRest(b: string, fields: seq<Field>) returns (rest: string)
    ensures Print(b, fields) == (if fields == [] then Closing(b) else MultipartRoundTrip.Separator(b)) + rest
  {
    hide Headers, Data, MultipartRoundTrip.Separator, Closing;
    if fields == [] {
      rest := "";
      assert "" + Closing(b) == Closing(b) + "";
    } else {
      var more := Headers(fields[0]) + Data(fields[0]) + PrintOpen(b, fields[1..]);
      rest := more + Closing(b);
      assert MultipartRoundTrip.Separator(b) + more + Closing(b) == MultipartRoundTrip.Separator(b) + rest;
    }
  }

  lemma StartsAtStart()
    ensures AtStart(Init.(seenData := true))
  {
  }

  /** The closing boundary ends the body with its very last byte. */
  lemma ClosedByLastByte(cfg: Config, s: State, fields: seq<Field>)
    requires ValidConfig(cfg) && AtStart(s)
    requires forall i :: 0 <= i < |fields| ==> Printable(fields[i]) && Fine(cfg, fields[i])
    ensures var body := Print(cfg.boundary, fields); body != "" && !Run(cfg, s, body[..|body| - 1]).complete
  {
    hide Run, Printable, Fine, ValidConfig, PrintOpen, Pending, Judge, AtStart;
    var open, foot := PrintOpen(cfg.boundary, fields), Closing(cfg.boundary);
    var n := |foot| - 1;
    StartPending(cfg, s, fields);
    var u := Run(cfg, s, open);
    assert Ready(u) by { PendingReady(cfg, u, fields); }
    JudgeBoundaryLine(cfg, true);
    FeedUnbroken(cfg, u, foot, n);
    Streaming.RunSplit(cfg, s, open, foot[..n]);
    assert (open + foot)[..|open + foot| - 1] == open + foot[..n];
  }

  /** A body that is closed by its last byte, and what follows it. */
  lemma TailRead(cfg: Config, body: string, tail: string)
    requires body != ""
    requires var s := Init.(seenData := true);
             Run(cfg, s, body).complete && !Run(cfg, s, body[..|body| - 1]).complete
    ensures var t := RunSession(cfg, Session(Init.(seenData := true), false, false), body);
            var f := Chunk(cfg, Start, body + tail);
            f.state == t.state && (Streaming.Outside(f) <==> Streaming.Outside(t) || tail != "")
  {
    hide Run, RunSession;
    if tail == "" {
      assert body + tail == body;
    } else {
      Streaming.AfterClosing(cfg, Start, body, tail);
    }
  }

  lemma TailSpoiled(cfg: Config, s: State, fields: seq<Field>, tail: string)
    requires ValidConfig(cfg) && AtStart(s) && forall i :: 0 <= i < |fields| ==> Printable(fields[i])
    requires exists i :: 0 <= i < |fields| && !Fine(cfg, fields[i])
    ensures !Returned(Run(cfg, s, Print(cfg.boundary, fields) + tail), fields)
  {
    hide Run, Printable, Fine, ValidConfig, PrintOpen, AtStart, Spoiled, Returned;
    var foot := Closing(cfg.boundary) + tail;
    StartCut(cfg, s, fields, foot);
    assert Print(cfg.boundary, fields) + tail == PrintOpen(cfg.boundary, fields) + foot;
    SpoiledNotReturned(Run(cfg, s, Print(cfg.boundary, fields) + tail), fields);
  }

  // What reading the whole text in one call gives.
  ghost predicate ReadOutcome(cfg: Config, f: Session, lines: seq<string>, fields: seq<Field>, tail: string) {
    && (Returned(f.state, fields) <==> forall i :: 0 <= i < |fields| ==> Fine(cfg, fields[i]))
    && (Returned(f.state, fields) ==>
          FilesKept(cfg, f.state, fields) && (Streaming.Outside(f) <==> lines != [] || tail != ""))
  }

  lemma FineSurrounded(cfg: Config, g: Session, lines: seq<string>, fields: seq<Field>, tail: string)
    requires ValidConfig(cfg) && AtStart(g.state) && g.dataBefore == (lines != []) && !g.dataAfter
    requires g == RunSession(cfg, Session(Init.(seenData := true), false, false), Flatten(lines))
    requires forall i :: 0 <= i < |fields| ==> Printable(fields[i]) && Fine(cfg, fields[i])
    ensures ReadOutcome(cfg, Chunk(cfg, Start, Flatten(lines) + Print(cfg.boundary, fields) + tail), lines, fields, tail)
  {
    hide Run, RunSession, Printable, Fine, Print, ValidConfig, Matches, Delivered, FilesKept, AtStart, Flatten, Chunk;
    var before, body := Flatten(lines), Print(cfg.boundary, fields);
    var s := Session(Init.(seenData := true), false, false);
    PrintedInside(cfg, g, fields);
    Streaming.SessionSplit(cfg, s, before, body);
    Streaming.RunSplit(cfg, s.state, before, body);
    BodyOutcome(cfg, g.state, fields);
    var t := RunSession(cfg, s, before + body);
    assert Returned(t.state, fields);
    DeliveredFiles(cfg, t.state, fields);
    ClosedByLastByte(cfg, g.state, fields);
    var most := body[..|body| - 1];
    assert (before + body)[..|before + body| - 1] == before + most;
    Streaming.RunSplit(cfg, s.state, before, most);
    TailRead(cfg, before + body, tail);
  }

  lemma SpoiledSurrounded(cfg: Config, g: Session, lines: seq<string>, fields: seq<Field>, tail: string)
    requires ValidConfig(cfg) && AtStart(g.state)
    requires g == RunSession(cfg, Session(Init.(seenData := true), false, false), Flatten(lines))
    requires forall i :: 0 <= i < |fields| ==> Printable(fields[i])
    requires exists i :: 0 <= i < |fields| && !Fine(cfg, fields[i])
    ensures !Returned(Chunk(cfg, Start, Flatten(lines) + Print(cfg.boundary, fields) + tail).state, fields)
  {
    hide Run, RunSession, Printable, Fine, Print, ValidConfig, Returned, AtStart, Flatten, Chunk;
    var before, body := Flatten(lines), Print(cfg.boundary, fields);
    PrintNonempty(cfg.boundary, fields);
    TailSpoiled(cfg, g.state, fields, tail);
    Streaming.RunSplit(cfg, Init.(seenData := true), before, body + tail);
    assert before + body + tail == before + (body + tail);
    Streaming.OneRead(cfg, Start, before + body + tail);
  }

  /** Text lines in front of a printed body, and anything behind it, in any
      chunks: the same fields come back under the same condition, and data
      outside of the parts is reported if and only if there is any. */
  lemma SurroundedRoundTrip(cfg: Config, lines: seq<string>, fields: seq<Field>, tail: string, chunks: seq<string>)
    requires ValidConfig(cfg) && forall i :: 0 <= i < |fields| ==> Printable(fields[i])
    requires forall i :: 0 <= i < |lines| ==> PreambleLine(lines[i])
    requires Flatten(chunks) == Flatten(lines) + Print(cfg.boundary, fields) + tail
    ensures var f := Chunks(cfg, Start, chunks);
            && (Returned(f.state, fields) <==> forall i :: 0 <= i < |fields| ==> Fine(cfg, fields[i]))
            && (Returned(f.state, fields) ==>
                  FilesKept(cfg, f.state, fields) && (Streaming.Outside(f) <==> lines != [] || tail != ""))
  {
    hide Run, RunSession, Printable, Fine, Print, ValidConfig, Chunks, Chunk, FilesKept, Returned, PreambleLine, AtStart, Flatten;
    var s := Session(Init.(seenData := true), false, false);
    assert AtStart(s.state) by { StartsAtStart(); }
    PreambleRead(cfg, s, lines);
    var g := RunSession(cfg, s, Flatten(lines));
    Streaming.ChunkingIrrelevant(cfg, Start, chunks);
    if forall i :: 0 <= i < |fields| ==> Fine(cfg, fields[i]) {
      FineSurrounded(cfg, g, lines, fields, tail);
    } else {
      SpoiledSurrounded(cfg, g, lines, fields, tail);
    }
  }
}
