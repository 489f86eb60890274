/** The streaming multipart/form-data parser of apache2/msc_multipart.c as a
    function of its state and one input byte. */
module Multipart {
  import opened Wrappers
  import opened Sequences
  import opened CStrings
  import opened Tables
  import ContentDisposition

  const BUF_SIZE: nat := 4096

  datatype Kind = FormData | File

  /** One body part. `stored` is the content of the temporary file, None until it is created. */
  datatype Part = Part(
    kind: Kind, name: Option<string>, filename: Option<string>,
    headers: Table, lastHeader: Option<string>,
    values: seq<string>, value: string, stored: Option<string>, length: nat)

  const NewPart: Part := Part(FormData, None, None, map[], None, [], "", None, 0)

  datatype Config = Config(boundary: string, boundaryQuoted: bool, extractFiles: bool, fileLimit: int)

  datatype Flags = Flags(
    error: bool, headerFolding: bool, invalidHeaderFolding: bool, lfLine: bool, crlfLine: bool,
    unmatchedBoundary: bool, invalidQuoting: bool, invalidPart: bool, fileLimitExceeded: bool)

  datatype State = State(
    parts: seq<Part>, nfiles: nat, boundaryCount: nat,
    buf: string, containsLine: bool,
    part: Option<Part>, inData: bool, reserve: string,
    seenData: bool, complete: bool, flags: Flags)

  const Init: State := State([], 0, 0, "", true, None, false, "", false, false,
                             Flags(false, false, false, false, false, false, false, false, false))

  predicate Stopped(s: State) {
    s.flags.error || s.complete
  }

  function Fail(s: State): State {
    s.(flags := s.flags.(error := true))
  }

  function NoteLineEnd(s: State, crlf: bool): State {
    s.(flags := s.flags.(crlfLine := s.flags.crlfLine || crlf, lfLine := s.flags.lfLine || !crlf))
  }

  function NoteUnmatched(s: State, found: bool): State {
    s.(flags := s.flags.(unmatchedBoundary := s.flags.unmatchedBoundary || found))
  }

  // ---------- boundaries ----------

  /** The buffer as a C string. */
  function CStr(w: string): (z: string)
    ensures |z| <= |w| && z == w[..|z|]
    ensures NulFree(z)
    ensures |z| < |w| ==> w[|z|] == '\0'
  {
    if w == "" || w[0] == '\0' then "" else [w[0]] + CStr(w[1..])
  }

  // What a buffer that starts a line is taken for.
  datatype Verdict = Separator(last: bool, crlf: bool) | Malformed | Unmatched | NoBoundary

  predicate LooksLikeBoundary(w: string) {
    |CStr(w)| > 3 && w[0] == '-' && w[1] == '-'
  }

  predicate OtherwiseMalformed(cfg: Config, w: string) {
    var z := CStr(w);
    || (cfg.boundaryQuoted && StartsWith(z, 2, "\"") && StartsWith(z, 3, cfg.boundary))
    || (|z| >= 2 && SkipSpace(z, 2) != 2 && StartsWith(z, SkipSpace(z, 2), cfg.boundary))
  }

  function Judge(cfg: Config, w: string): Verdict {
    if !LooksLikeBoundary(w) then NoBoundary
    else if StartsWith(CStr(w), 2, cfg.boundary) then
      var e := 2 + |cfg.boundary|;
      var last := At(w, e) == '-' && At(w, e + 1) == '-';
      var t := if last then e + 2 else e;
      if At(w, t) == '\r' && At(w, t + 1) == '\n' && At(w, t + 2) == '\0' then Separator(last, true)
      else if At(w, t) == '\n' && At(w, t + 1) == '\0' then Separator(last, false)
      else Malformed
    else if OtherwiseMalformed(cfg, w) then Malformed
    else Unmatched
  }

  predicate HidesBoundary(cfg: Config, w: string) {
    exists i :: 0 <= i <= |w| && StartsWith(w, i, "--") && StartsWith(w, i + 2, cfg.boundary)
  }

  // ---------- parts ----------

  function Finished(p: Part): Part {
    if p.kind == File then p else p.(value := Flatten(p.values))
  }

  /** Only a part that has a name joins the list. */
  function FinishPart(s: State): State {
    if s.part == None then s
    else
      var p := s.part.value;
      s.(part := None,
         parts := if p.name != None then s.parts + [Finished(p)] else s.parts,
         flags := s.flags.(invalidPart := s.flags.invalidPart || p.name == None))
  }

  function ProcessBoundary(s: State, last: bool): State {
    var t := FinishPart(s);
    if last then t else t.(part := Some(NewPart), inData := false, reserve := "")
  }

  // ---------- headers ----------

  /** The empty line behind the headers: the part must have a name by now. */
  function EndOfHeaders(s: State): State
    requires s.part != None
  {
    var p := s.part.value;
    var found := Lookup(p.headers, "Content-Disposition");
    if found == None then Fail(s)
    else
      var value := found.value;
      var (rc, f) := ContentDisposition.Parse(value, ContentDisposition.Fields(p.name, p.filename, s.flags.invalidQuoting));
      var bad := rc < 0 || f.name == None || (f.filename != None && !Contains(value, "filename="));
      s.(part := Some(p.(name := f.name, filename := f.filename,
                         kind := if bad then p.kind else if f.filename != None then File else FormData,
                         lastHeader := if bad then p.lastHeader else None)),
         inData := s.inData || !bad,
         flags := s.flags.(invalidQuoting := f.invalidQuoting, error := s.flags.error || bad))
  }

  /** Whitespace other than spaces and tabs among the first d bytes. */
  predicate OddIndent(w: string, d: nat)
    requires d <= |w|
  {
    exists i :: 0 <= i < d && !IsBlank(w[i])
  }

  function Joined(value: string, more: string): string {
    value + " " + Chomp(more)
  }

  /** A line that starts with whitespace continues the header before it. */
  function Folded(p: Part, f: Flags, w: string): (Part, Flags)
    requires w != ""
  {
    var g := f.(headerFolding := true, invalidHeaderFolding := f.invalidHeaderFolding || !IsBlank(w[0]));
    if p.lastHeader == None then (p, g.(error := true))
    else
      var d := SkipSpace(w, 0);
      var found := Lookup(p.headers, p.lastHeader.value);
      var value := Joined(if found == None then "" else found.value, w[d..]);
      (p.(headers := Set(p.headers, p.lastHeader.value, value)),
       g.(error := f.error || |value| > BUF_SIZE,
          invalidHeaderFolding := g.invalidHeaderFolding || OddIndent(w, d)))
  }

  function FoldHeader(s: State, w: string): State
    requires s.part != None && w != ""
  {
    var (p, f) := Folded(s.part.value, s.flags, w);
    s.(part := Some(p), flags := f)
  }

  function ColonIndex(w: string, i: nat): (r: nat)
    requires i <= |w|
    ensures i <= r <= |w|
    ensures forall k :: i <= k < r ==> w[k] != ':'
    ensures r < |w| ==> w[r] == ':'
    decreases |w| - i
  {
    if i < |w| && w[i] != ':' then ColonIndex(w, i + 1) else i
  }

  function NewHeader(s: State, w: string): State
    requires s.part != None
  {
    var p := s.part.value;
    var c := ColonIndex(w, 0);
    if c == |w| || c == 0 then Fail(s)
    else
      var name := w[..c];
      var value := Chomp(w[SkipBlank(w, c + 1)..]);
      if Lookup(p.headers, name) != None then Fail(s)
      else s.(part := Some(p.(headers := Set(p.headers, name, value), lastHeader := Some(name))))
  }

  function HeaderLine(s: State, w: string): State
    requires s.part != None && w != ""
  {
    if !NulFree(w) then Fail(s)
    else
      var crlf := |w| > 1 && w[|w| - 2] == '\r';
      var t := NoteLineEnd(s, crlf);
      if w == "\r\n" || w == "\n" then EndOfHeaders(t)
      else if IsSpace(w[0]) then FoldHeader(t, w)
      else NewHeader(t, w)
  }

  // ---------- data ----------

  /** Length of the line break at the end of w, held back in case a boundary follows. */
  function BreakLen(w: string): (n: nat)
    ensures n <= |w| && n <= 2
  {
    if |w| >= 1 && w[|w| - 1] == '\n' then
      if |w| >= 2 && w[|w| - 2] == '\r' then 2 else 1
    else 0
  }

  function Break(w: string): string {
    w[|w| - BreakLen(w)..]
  }

  function Body(w: string): string {
    w[..|w| - BreakLen(w)]
  }

  /** Stores the reserve and the buffer, the last line break of the buffer aside. */
  function DataLine(cfg: Config, s: State, w: string): State
    requires s.part != None
  {
    var p := s.part.value;
    var chunk := s.reserve + Body(w);
    var t := s.(reserve := Break(w));
    if p.kind == FormData then
      t.(part := Some(p.(values := p.values + [chunk], length := p.length + |chunk|)))
    else if cfg.extractFiles && s.nfiles >= cfg.fileLimit then
      t.(flags := s.flags.(fileLimitExceeded := true), part := Some(p.(length := p.length + |chunk|)))
    else if cfg.extractFiles then
      var file := if p.stored == None then "" else p.stored.value;
      t.(nfiles := if p.stored == None then s.nfiles + 1 else s.nfiles,
         part := Some(p.(stored := Some(file + chunk), length := p.length + |chunk|)))
    else
      t.(part := Some(p.(length := p.length + |chunk|)))
  }

  // ---------- one byte ----------

  /** A buffer that is not a boundary; whole says that it ends a line and is not full. */
  function Content(cfg: Config, s: State, w: string, whole: bool): State
    requires w != ""
  {
    if s.part == None then s
    else if s.inData then DataLine(cfg, s, w)
    else if !whole then Fail(s)
    else HeaderLine(s, w)
  }

  /** A boundary line: the part before it is over, and after the last one so is the body. */
  function Separated(s: State, last: bool, crlf: bool): State {
    var u := ProcessBoundary(NoteLineEnd(s, crlf), last);
    u.(complete := u.complete || last, boundaryCount := u.boundaryCount + 1)
  }

  /** Deals with the buffer w, which ends at a line break, is full, or would end in
      a carriage return if one more byte were taken. */
  function Process(cfg: Config, s: State, w: string, whole: bool): State
    requires w != ""
  {
    if !s.containsLine then Content(cfg, s, w, whole)
    else
      match Judge(cfg, w)
      case Separator(last, crlf) => Separated(s, last, crlf)
      case Malformed => Fail(s)
      case Unmatched => Content(cfg, NoteUnmatched(s, true), w, whole)
      case NoBoundary => Content(cfg, NoteUnmatched(s, HidesBoundary(cfg, w)), w, whole)
  }

  function Flush(cfg: Config, s: State, newline: bool, whole: bool): State
    requires s.buf != ""
  {
    var t := Process(cfg, s, s.buf, whole);
    if t.flags.error then t else t.(buf := "", containsLine := newline)
  }

  /** Data in front of the first boundary, which the parser ignores. */
  predicate Ignores(cfg: Config, s: State, w: string) {
    s.part == None && (s.containsLine ==> var v := Judge(cfg, w); v == Unmatched || v == NoBoundary)
  }

  predicate TooEarly(s: State, c: char) {
    c == '\r' && |s.buf| == BUF_SIZE - 1
  }

  function Step(cfg: Config, s: State, c: char): State {
    if Stopped(s) then s
    else if TooEarly(s, c) then
      var t := Flush(cfg, s, false, false);
      if Stopped(t) then t else t.(buf := [c])
    else
      var t := s.(buf := s.buf + [c]);
      if c == '\n' || |t.buf| >= BUF_SIZE then Flush(cfg, t, c == '\n', |t.buf| < BUF_SIZE) else t
  }

  function Run(cfg: Config, s: State, input: string): State
    decreases |input|
  {
    if input == "" then s else Step(cfg, Run(cfg, s, input[..|input| - 1]), input[|input| - 1])
  }

  // ---------- calls ----------

  /** Whether the byte c makes the parser ignore a buffer. */
  predicate StepIgnores(cfg: Config, s: State, c: char) {
    && !Stopped(s)
    && if TooEarly(s, c) then Ignores(cfg, s, s.buf)
       else (c == '\n' || |s.buf| + 1 >= BUF_SIZE) && Ignores(cfg, s.(buf := s.buf + [c]), s.buf + [c])
  }

  // The parser state with the two flags about data outside of the parts.
  datatype Session = Session(state: State, dataBefore: bool, dataAfter: bool)

  const Start: Session := Session(Init, false, false)

  function SessionStep(cfg: Config, f: Session, c: char): Session {
    Session(Step(cfg, f.state, c), f.dataBefore || StepIgnores(cfg, f.state, c), f.dataAfter)
  }

  function RunSession(cfg: Config, f: Session, input: string): (g: Session)
    ensures g.state == Run(cfg, f.state, input)
    decreases |input|
  {
    if input == "" then f
    else SessionStep(cfg, RunSession(cfg, f, input[..|input| - 1]), input[|input| - 1])
  }

  /** The loop over the bytes of one call; what is left unread behind the closing boundary is flagged. */
  function ReadBytes(cfg: Config, f: Session, input: string): Session
    requires input != ""
  {
    var g := RunSession(cfg, f, input);
    if Run(cfg, f.state, input[..|input| - 1]).complete then g.(dataAfter := true) else g
  }

  /** One call of multipart_process_chunk. */
  function Chunk(cfg: Config, f: Session, input: string): Session {
    if input == "" then f
    else
      var s := f.(state := f.state.(seenData := true));
      if f.state.complete then s.(dataBefore := true)
      else ReadBytes(cfg, s, input)
  }

  /** The calls of one request: a caller that is told of an error makes no more of them. */
  function Chunks(cfg: Config, f: Session, chunks: seq<string>): Session
    decreases |chunks|
  {
    if chunks == [] || f.state.flags.error then f
    else Chunks(cfg, Chunk(cfg, f, chunks[0]), chunks[1..])
  }

  /** The final call: succeeds when the closing boundary was seen, or is in the buffer without its line break. */
  function Complete(cfg: Config, s: State): (int, State) {
    if !s.seenData || s.complete then (1, s)
    else if s.boundaryCount > 0 && s.containsLine && s.buf == "--" + cfg.boundary + "--" then
      (1, ProcessBoundary(s, true).(complete := true))
    else (-1, s)
  }

  // ---------- what processing a buffer leaves alone ----------

  lemma EndOfHeadersFrame(s: State)
    requires s.part != None
    ensures var t := EndOfHeaders(s); t.part != None && t == s.(part := t.part, inData := t.inData, flags := t.flags)
  {
    hide ContentDisposition.Parse, Lookup, Set, Contains;
  }

  lemma HeaderFrame(s: State, w: string)
    requires s.part != None && w != ""
    ensures var t := HeaderLine(s, w); t.part != None && t == s.(part := t.part, inData := t.inData, flags := t.flags)
  {
    hide EndOfHeaders, Folded, Lookup, Set, Chomp, SkipBlank, ColonIndex, NulFree;
    EndOfHeadersFrame(NoteLineEnd(s, |w| > 1 && w[|w| - 2] == '\r'));
  }

  lemma ContentFrame(cfg: Config, s: State, w: string, whole: bool)
    requires w != ""
    ensures var t := Content(cfg, s, w, whole);
            t == s.(part := t.part, inData := t.inData, flags := t.flags, nfiles := t.nfiles, reserve := t.reserve)
  {
    hide HeaderLine, BreakLen;
    if s.part != None { HeaderFrame(s, w); }
  }

  lemma FinishFrame(s: State)
    ensures var t := FinishPart(s);
            && t == s.(part := None, parts := t.parts, flags := t.flags)
            && t.flags.error == s.flags.error && s.parts <= t.parts
  {
    hide Finished;
  }

  lemma NothingToFinish(s: State)
    requires s.part == None
    ensures FinishPart(s) == s
  {
  }

  lemma BoundaryFrame(s: State, last: bool)
    ensures var t := ProcessBoundary(s, last);
            && t.flags.error == s.flags.error && s.parts <= t.parts
            && t.seenData == s.seenData && t.buf == s.buf && t.containsLine == s.containsLine && t.complete == s.complete
            && t.boundaryCount == s.boundaryCount
  {
    hide FinishPart;
    FinishFrame(s);
  }

  lemma ProcessFrame(cfg: Config, s: State, w: string, whole: bool)
    requires w != ""
    ensures var t := Process(cfg, s, w, whole);
            && t.seenData == s.seenData && t.buf == s.buf && t.containsLine == s.containsLine && s.parts <= t.parts
            && t.boundaryCount >= s.boundaryCount
            && (!Stopped(s) ==> !(t.flags.error && t.complete))
  {
    hide Judge, HidesBoundary, Content, ProcessBoundary;
    if !s.containsLine {
      ContentFrame(cfg, s, w, whole);
    } else {
      match Judge(cfg, w)
      case Separator(last, crlf) => BoundaryFrame(NoteLineEnd(s, crlf), last);
      case Malformed =>
      case Unmatched => ContentFrame(cfg, NoteUnmatched(s, true), w, whole);
      case NoBoundary => ContentFrame(cfg, NoteUnmatched(s, HidesBoundary(cfg, w)), w, whole);
    }
  }

  lemma StepFrame(cfg: Config, s: State, c: char)
    ensures var t := Step(cfg, s, c);
            && t.seenData == s.seenData && s.parts <= t.parts && t.boundaryCount >= s.boundaryCount
            && (!Stopped(s) ==> !(t.flags.error && t.complete))
  {
    hide Process;
    if !Stopped(s) {
      if s.buf != "" { ProcessFrame(cfg, s, s.buf, false); }
      ProcessFrame(cfg, s.(buf := s.buf + [c]), s.buf + [c], |s.buf| + 1 < BUF_SIZE);
    }
  }

  lemma {:induction false} RunFrame(cfg: Config, s: State, input: string)
    ensures var t := Run(cfg, s, input);
            && t.seenData == s.seenData && s.parts <= t.parts && t.boundaryCount >= s.boundaryCount
            && (!(s.flags.error && s.complete) ==> !(t.flags.error && t.complete))
    decreases |input|
  {
    hide TooEarly, Flush;
    if input != "" {
      RunFrame(cfg, s, input[..|input| - 1]);
      StepFrame(cfg, Run(cfg, s, input[..|input| - 1]), input[|input| - 1]);
    }
  }
}
