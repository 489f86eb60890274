/** The multipart parser object: the loops and field updates of
    multipart_process_chunk and what it calls, proved against Multipart. */
module MultipartParser {
  import opened Wrappers
  import opened Sequences
  import opened CStrings
  import opened Tables
  import opened Multipart
  import CD = ContentDisposition

  // What the parser keeps about the part being built: lengths add up, and
  // nothing is stored before the headers are over.
  ghost predicate PartOk(s: State) {
    s.part != None ==>
      var p := s.part.value;
      && (p.kind == FormData ==> |Flatten(p.values)| == p.length)
      && (!s.inData ==> p.kind == FormData && p.values == [] && p.length == 0)
      && (p.lastHeader != None ==> Lookup(p.headers, p.lastHeader.value) != None)
  }

  ghost predicate Inv(s: State) {
    && (!Stopped(s) ==> |s.buf| < 4096 && forall i :: 0 <= i < |s.buf| ==> s.buf[i] != '\n')
    && PartOk(s)
  }

  /** Whatever is set can be looked up. */
  lemma LookupKnown()
    ensures forall t: Table, name: string, value: string :: Lookup(Set(t, name, value), name) != None
  {
    forall t: Table, name: string, value: string
      ensures Lookup(Set(t, name, value), name) != None
    {
      LookupSet(t, name, value, name);
    }
  }

  lemma HeaderOk(s: State, w: string)
    requires PartOk(s) && s.part != None && !s.inData && w != ""
    ensures PartOk(HeaderLine(s, w))
  {
    hide CD.Parse, Lookup, Set, Chomp, SkipBlank, SkipSpace, NulFree, Contains, ColonIndex;
    LookupKnown();
    assert Flatten([]) == "";
    if !NulFree(w) {
    } else if w == "\r\n" || w == "\n" {
    } else if IsSpace(w[0]) {
    } else {
    }
  }

  lemma DataOk(cfg: Config, s: State, w: string)
    requires PartOk(s) && s.part != None && s.inData
    ensures PartOk(DataLine(cfg, s, w))
  {
    hide Break, Body, Lookup, Set, Flatten;
    FlattenSnoc(s.part.value.values, s.reserve + Body(w));
  }

  lemma ContentOk(cfg: Config, s: State, w: string, whole: bool)
    requires PartOk(s) && w != ""
    ensures PartOk(Content(cfg, s, w, whole))
  {
    hide DataLine, HeaderLine, Lookup, Set, Flatten;
    if s.part != None && s.inData { DataOk(cfg, s, w); }
    if s.part != None && !s.inData { HeaderOk(s, w); }
  }

  lemma ProcessOk(cfg: Config, s: State, w: string, whole: bool)
    requires PartOk(s) && w != ""
    ensures PartOk(Process(cfg, s, w, whole))
  {
    hide Judge, HidesBoundary, Lookup, Set, Flatten, Content;
    FlattenNone<char>();
    if !s.containsLine {
      ContentOk(cfg, s, w, whole);
    } else {
      match Judge(cfg, w)
      case Separator(last, crlf) =>
      case Malformed =>
      case Unmatched => ContentOk(cfg, NoteUnmatched(s, true), w, whole);
      case NoBoundary => ContentOk(cfg, NoteUnmatched(s, HidesBoundary(cfg, w)), w, whole);
    }
  }

  lemma StepInv(cfg: Config, s: State, c: char)
    requires Inv(s)
    ensures Inv(Step(cfg, s, c))
  {
    hide Process, Flatten;
    if !Stopped(s) {
      if TooEarly(s, c) {
        ProcessOk(cfg, s, s.buf, false);
      } else if c == '\n' || |s.buf| + 1 >= BUF_SIZE {
        ProcessOk(cfg, s.(buf := s.buf + [c]), s.buf + [c], |s.buf| + 1 < BUF_SIZE);
      }
    }
  }

  /** Between two bytes of any run the buffer has room for at least one more and
      holds no line feed, and the length of a form field is that of its pieces. */
  lemma {:induction false} RunInv(cfg: Config, s: State, input: string)
    requires Inv(s)
    ensures Inv(Run(cfg, s, input))
    decreases |input|
  {
    hide Step, Inv;
    if input != "" {
      RunInv(cfg, s, input[..|input| - 1]);
      StepInv(cfg, Run(cfg, s, input[..|input| - 1]), input[|input| - 1]);
    }
  }

  /** The buffer holds the last bytes read, and the one before them is not a
      carriage return that a line feed could still follow. */
  ghost predicate BreakTogether(s: State, input: string) {
    var n := |input| - |s.buf|;
    && n >= 0 && s.buf == input[n..] && |s.buf| < BUF_SIZE
    && (n > 0 && input[n - 1] == '\r' ==> s.buf != "" && s.buf[0] == '\r')
  }

  /** A CRLF is never split across two buffers, whatever the input. */
  lemma {:induction false} BreaksStayTogether(cfg: Config, s: State, input: string)
    requires s.buf == "" && !Stopped(Run(cfg, s, input))
    ensures BreakTogether(Run(cfg, s, input), input)
    decreases |input|
  {
    hide Step, BreakTogether;
    if input == "" {
      assert BreakTogether(s, input) by { NothingSplit(s); }
    } else {
      var before, c := input[..|input| - 1], input[|input| - 1];
      StepBuffer(cfg, Run(cfg, s, before), c);
      BreaksStayTogether(cfg, s, before);
      BreakTogetherNext(Run(cfg, s, before), Run(cfg, s, input), before, c);
      assert before + [c] == input;
    }
  }

  lemma NothingSplit(s: State)
    requires s.buf == ""
    ensures BreakTogether(s, "")
  {
  }

  /** What one byte makes of the buffer. */
  lemma StepBuffer(cfg: Config, s: State, c: char)
    requires !Stopped(Step(cfg, s, c))
    ensures !Stopped(s)
    ensures Step(cfg, s, c).buf
         == if TooEarly(s, c) then [c] else if c == '\n' || |s.buf| + 1 >= BUF_SIZE then "" else s.buf + [c]
  {
    hide Process;
  }

  lemma BreakTogetherNext(s: State, t: State, input: string, c: char)
    requires BreakTogether(s, input)
    requires t.buf == if TooEarly(s, c) then [c] else if c == '\n' || |s.buf| + 1 >= BUF_SIZE then "" else s.buf + [c]
    ensures BreakTogether(t, input + [c])
  {
    var more := input + [c];
    if t.buf == s.buf + [c] {
      assert t.buf == more[|input| - |s.buf|..];
    }
  }

  lemma FoldedCases(p: Part, f: Flags, w: string)
    requires w != ""
    ensures p.lastHeader == None ==>
      Folded(p, f, w) == (p, f.(headerFolding := true, invalidHeaderFolding := f.invalidHeaderFolding || !IsBlank(w[0]), error := true))
    ensures p.lastHeader != None ==>
      var d := SkipSpace(w, 0);
      var found := Lookup(p.headers, p.lastHeader.value);
      var value := Joined(if found == None then "" else found.value, w[d..]);
      Folded(p, f, w) ==
        (p.(headers := Set(p.headers, p.lastHeader.value, value)),
         f.(headerFolding := true, invalidHeaderFolding := f.invalidHeaderFolding || !IsBlank(w[0]) || OddIndent(w, d),
            error := f.error || |value| > BUF_SIZE))
  {
    hide Lookup, Set, Joined, SkipSpace, OddIndent;
  }

  // ---------- facts used by the loop of ProcessChunk ----------

  lemma InvSeen(s: State)
    requires Inv(s)
    ensures Inv(s.(seenData := true))
  {
  }

  lemma InvRoom(s: State)
    requires Inv(s) && !Stopped(s)
    ensures |s.buf| < BUF_SIZE
  {
  }

  lemma InvPart(s: State, c: char)
    requires Inv(s)
    ensures PartOk(s) && PartOk(s.(buf := s.buf + [c]))
  {
  }

  // A session whose buffer was processed in order to hold the carriage return c back.
  ghost predicate Held(cfg: Config, g: Session, h: Session, c: char) {
    && !Stopped(g.state) && !Stopped(h.state)
    && TooEarly(g.state, c) && h.state == Flush(cfg, g.state, false, false)
    && h.dataBefore == (g.dataBefore || Ignores(cfg, g.state, g.state.buf))
    && h.dataAfter == g.dataAfter
  }

  lemma HeldEmpty(cfg: Config, g: Session, h: Session, c: char)
    requires Held(cfg, g, h, c)
    ensures h.state.buf == ""
  {
    hide Process;
  }

  lemma DashesAt(w: string, i: nat)
    requires i < |w|
    ensures StartsWith(w, i, "--") <==> w[i] == '-' && i + 1 < |w| && w[i + 1] == '-'
  {
    if i + 2 <= |w| {
      assert w[i..i + 2] == [w[i], w[i + 1]];
    }
  }

  lemma NoLineNoSeparator(cfg: Config, w: string)
    requires forall i :: 0 <= i < |w| ==> w[i] != '\n'
    ensures !Judge(cfg, w).Separator?
  {
    hide LooksLikeBoundary, OtherwiseMalformed, StartsWith, CStr;
  }

  lemma ContentNotComplete(cfg: Config, s: State, w: string)
    requires w != ""
    ensures Content(cfg, s, w, false).complete == s.complete
  {
  }

  /** A buffer without a line feed never closes the body. */
  lemma OnlyLinesComplete(cfg: Config, s: State, w: string)
    requires w != "" && forall i :: 0 <= i < |w| ==> w[i] != '\n'
    ensures !Process(cfg, s, w, false).complete || s.complete
  {
    hide Judge, HidesBoundary, Content, Separated;
    NoLineNoSeparator(cfg, w);
    ContentNotComplete(cfg, s, w);
    ContentNotComplete(cfg, NoteUnmatched(s, true), w);
    ContentNotComplete(cfg, NoteUnmatched(s, HidesBoundary(cfg, w)), w);
  }

  // The round of the loop that processes the buffer without taking a byte.
  ghost predicate Processed(cfg: Config, before: Session, after: Session) {
    && before.state.buf != ""
    && after.state == Flush(cfg, before.state, false, false)
    && after.dataBefore == (before.dataBefore || Ignores(cfg, before.state, before.state.buf))
    && after.dataAfter == before.dataAfter
  }

  // A round of the loop that takes the byte c.
  ghost predicate Taken(cfg: Config, before: Session, after: Session, c: char) {
    var t := before.state.(buf := before.state.buf + [c]);
    var full := c == '\n' || |t.buf| >= BUF_SIZE;
    && after.state == (if full then Flush(cfg, t, c == '\n', |t.buf| < BUF_SIZE) else t)
    && after.dataBefore == (before.dataBefore || (full && Ignores(cfg, t, t.buf)))
    && after.dataAfter == before.dataAfter
  }

  lemma RoundHolds(cfg: Config, g: Session, before: Session, after: Session, c: char)
    requires Inv(g.state) && !Stopped(g.state)
    requires before == g || Held(cfg, g, before, c)
    requires TooEarly(before.state, c) && Processed(cfg, before, after)
    ensures Inv(after.state) && !after.state.complete
    ensures !after.state.flags.error ==> Held(cfg, g, after, c)
    ensures after.state.flags.error ==> after == SessionStep(cfg, g, c)
  {
    hide Process, Ignores;
    assert before == g by {
      if before != g { HeldEmpty(cfg, g, before, c); }
    }
    OnlyLinesComplete(cfg, g.state, g.state.buf);
    ProcessOk(cfg, g.state, g.state.buf, false);
  }

  lemma Consumes(cfg: Config, g: Session, before: Session, after: Session, c: char)
    requires Inv(g.state) && !Stopped(g.state)
    requires before == g || Held(cfg, g, before, c)
    requires !TooEarly(before.state, c) && Taken(cfg, before, after, c)
    ensures after == SessionStep(cfg, g, c) && Inv(after.state)
  {
    hide Process, Ignores, Inv;
    StepInv(cfg, g.state, c);
    if before != g {
      assert before.state.buf == "" && before.state.buf + [c] == [c];
      assert c == '\r';
      assert after.state == before.state.(buf := [c]);
    }
  }

  lemma RunSessionEmpty(cfg: Config, f: Session)
    ensures RunSession(cfg, f, "") == f
  {
  }

  lemma RunSessionNext(cfg: Config, f: Session, input: string, n: nat)
    requires n < |input|
    ensures RunSession(cfg, f, input[..n + 1]) == SessionStep(cfg, RunSession(cfg, f, input[..n]), input[n])
  {
    assert input[..n + 1][..n] == input[..n];
  }

  lemma {:induction false} RunSessionStopped(cfg: Config, f: Session, input: string, n: nat)
    requires n <= |input| && Stopped(RunSession(cfg, f, input[..n]).state)
    ensures RunSession(cfg, f, input) == RunSession(cfg, f, input[..n])
    decreases |input|
  {
    if n == |input| {
      assert input[..n] == input;
    } else {
      var prefix := input[..|input| - 1];
      assert prefix[..n] == input[..n];
      RunSessionStopped(cfg, f, prefix, n);
    }
  }

  lemma NotStoppedBefore(cfg: Config, f: Session, input: string)
    requires input != "" && !Stopped(RunSession(cfg, f, input).state)
    ensures !Stopped(RunSession(cfg, f, input[..|input| - 1]).state)
  {
    hide Flush, TooEarly, StepIgnores;
  }

  /** Where the loop of a call ends, and what it leaves unread. */
  lemma ChunkEnds(cfg: Config, f: Session, input: string, n: nat)
    requires 0 < n <= |input| && !Stopped(RunSession(cfg, f, input[..n - 1]).state)
    requires n == |input| || Stopped(RunSession(cfg, f, input[..n]).state)
    ensures RunSession(cfg, f, input) == RunSession(cfg, f, input[..n])
    ensures Run(cfg, f.state, input[..|input| - 1]).complete
         == (n < |input| && RunSession(cfg, f, input[..n]).state.complete)
  {
    hide RunSession, Run;
    if n == |input| {
      assert input[..n] == input;
      assert !Stopped(RunSession(cfg, f, input[..n - 1]).state);
    } else {
      RunSessionStopped(cfg, f, input, n);
      var prefix := input[..|input| - 1];
      assert prefix[..n] == input[..n];
      RunSessionStopped(cfg, f, prefix, n);
    }
  }

  /** What the loop over the bytes of a call amounts to when it ends behind byte n. */
  lemma ReadBytesIs(cfg: Config, f: Session, input: string, n: nat)
    requires 0 < n <= |input| && !Stopped(RunSession(cfg, f, input[..n - 1]).state)
    requires n == |input| || Stopped(RunSession(cfg, f, input[..n]).state)
    ensures var g := RunSession(cfg, f, input[..n]);
            && ReadBytes(cfg, f, input) == (if n < |input| && g.state.complete then g.(dataAfter := true) else g)
            && !(g.state.flags.error && g.state.complete)
  {
    hide RunSession, Run;
    ChunkEnds(cfg, f, input, n);
    RunSessionNext(cfg, f, input, n - 1);
    StepFrame(cfg, RunSession(cfg, f, input[..n - 1]).state, input[n - 1]);
  }

  class Parser {
    const cfg: Config
    var parts: seq<Part>
    var nfiles: nat
    var boundaryCount: nat
    const buf: array<char>
    var bufleft: nat
    var bufContainsLine: bool
    var mpp: Option<Part>
    var mppState: bool
    var reserve: string
    var seenData: bool
    var isComplete: bool
    var flags: Flags
    var dataBefore: bool
    var dataAfter: bool

    ghost predicate Room()
      reads this
    {
      buf.Length == BUF_SIZE + 2 && bufleft <= BUF_SIZE
    }

    ghost function Model(): State
      requires Room()
      reads this, buf
    {
      State(parts, nfiles, boundaryCount, buf[..BUF_SIZE - bufleft], bufContainsLine,
            mpp, mppState, reserve, seenData, isComplete, flags)
    }

    ghost function SessionModel(): Session
      requires Room()
      reads this, buf
    {
      Session(Model(), dataBefore, dataAfter)
    }

    ghost predicate Valid()
      reads this, buf
    {
      Room() && Inv(Model())
    }

    constructor (cfg: Config)
      ensures Valid() && fresh(buf) && SessionModel() == Start && this.cfg == cfg
    {
      this.cfg := cfg;
      parts, nfiles, boundaryCount := [], 0, 0;
      buf := new char[BUF_SIZE + 2](_ => '\0');
      bufleft, bufContainsLine := BUF_SIZE, true;
      mpp, mppState, reserve := None, false, "";
      seenData, isComplete, flags := false, false, Multipart.Init.flags;
      dataBefore, dataAfter := false, false;
    }

    method CombineValueParts(values: seq<string>, length: nat) returns (r: string)
      requires |Flatten(values)| == length
      ensures r == Flatten(values)
    {
      r := "";
      for i := 0 to |values|
        invariant r == Flatten(values[..i])
      {
        FlattenNext(values, i);
        if |r| + |values[i]| <= length {
          r := r + values[i];
        }
      }
      assert values[..|values|] == values;
    }

    /** The part being read is over: it joins the list if it has a name. */
    method FinishPart()
      requires Room() && PartOk(Model()) && mpp != None
      modifies this`parts, this`mpp, this`flags
      ensures Model() == Multipart.FinishPart(old(Model()))
    {
      hide Flatten;
      var p := mpp.value;
      if p.kind != File {
        var value := CombineValueParts(p.values, p.length);
        p := p.(value := value);
      }
      if p.name != None {
        parts := parts + [p];
      } else {
        flags := flags.(invalidPart := true);
      }
      mpp := None;
    }

    method ProcessBoundary(last: bool)
      requires Room() && PartOk(Model())
      modifies this`parts, this`mpp, this`mppState, this`reserve, this`flags
      ensures Model() == Multipart.ProcessBoundary(old(Model()), last)
    {
      hide Multipart.FinishPart, PartOk;
      if mpp != None {
        FinishPart();
      } else {
        NothingToFinish(Model());
      }
      if !last {
        mpp := Some(NewPart);
        mppState := false;
        reserve := "";
      }
    }

    /** What the headers of a part make of it, once they have all been read. */
    method Decide(part: Part, given: Flags, value: string) returns (p: Part, f: Flags, ok: bool)
      ensures var (rc, g) := CD.Parse(value, CD.Fields(part.name, part.filename, given.invalidQuoting));
              var bad := rc < 0 || g.name == None || (g.filename != None && !Contains(value, "filename="));
              && ok == !bad
              && p == part.(name := g.name, filename := g.filename,
                            kind := if bad then part.kind else if g.filename != None then File else FormData,
                            lastHeader := if bad then part.lastHeader else None)
              && f == given.(invalidQuoting := g.invalidQuoting, error := given.error || bad)
    {
      hide CD.Parse, Contains;
      p, f, ok := part, given, false;
      var rc, g := CD.ParseContentDisposition(value, CD.Fields(p.name, p.filename, f.invalidQuoting));
      p := p.(name := g.name, filename := g.filename);
      f := f.(invalidQuoting := g.invalidQuoting);
      if rc < 0 {
        f := f.(error := true);
        return;
      }
      if p.name == None {
        f := f.(error := true);
        return;
      }
      if p.filename != None {
        if !Contains(value, "filename=") {
          f := f.(error := true);
          return;
        }
        p := p.(kind := File);
      } else {
        p := p.(kind := FormData);
      }
      p := p.(lastHeader := None);
      ok := true;
    }

    method EmptyHeaderLine()
      requires Room() && mpp != None
      modifies this`mpp, this`mppState, this`flags
      ensures Model() == EndOfHeaders(old(Model()))
    {
      hide CD.Parse, Contains, Lookup, Set;
      var found := Lookup(mpp.value.headers, "Content-Disposition");
      if found == None {
        flags := flags.(error := true);
        return;
      }
      var p, f, ok := Decide(mpp.value, flags, found.value);
      mpp := Some(p);
      flags := f;
      if ok {
        mppState := true;
      }
    }

    method SkipFolding(w: string) returns (data: nat, odd: bool)
      ensures data == SkipSpace(w, 0)
      ensures odd == OddIndent(w, data)
    {
      data, odd := 0, false;
      while data < |w| && IsSpace(w[data])
        invariant 0 <= data <= |w| && SkipSpace(w, 0) == SkipSpace(w, data)
        invariant odd == OddIndent(w, data)
      {
        if w[data] != '\t' && w[data] != ' ' {
          odd := true;
        }
        data := data + 1;
      }
    }

    /** The part and the flags after a folded header line. */
    method Fold(part: Part, given: Flags, w: string) returns (p: Part, f: Flags)
      requires w != "" && (part.lastHeader != None ==> Lookup(part.headers, part.lastHeader.value) != None)
      ensures (p, f) == Folded(part, given, w)
    {
      hide Lookup, Set, Joined, SkipSpace, OddIndent, Folded;
      FoldedCases(part, given, w);
      p := part;
      var invalid := given.invalidHeaderFolding || (w[0] != '\t' && w[0] != ' ');
      if p.lastHeader == None {
        f := given.(headerFolding := true, invalidHeaderFolding := invalid, error := true);
      } else {
        var data, odd := SkipFolding(w);
        var found := Lookup(p.headers, p.lastHeader.value);
        var value := Joined(found.value, w[data..]);
        p := p.(headers := Set(p.headers, p.lastHeader.value, value));
        f := given.(headerFolding := true, invalidHeaderFolding := invalid || odd,
                    error := given.error || |value| > BUF_SIZE);
      }
    }

    method FoldedHeaderLine(w: string)
      requires Room() && mpp != None && w != "" && PartOk(Model())
      modifies this`mpp, this`flags
      ensures Model() == FoldHeader(old(Model()), w)
    {
      hide Folded, Lookup, Set, Flatten;
      var p, f := Fold(mpp.value, flags, w);
      mpp := Some(p);
      flags := f;
    }

    method NewHeaderLine(w: string)
      requires Room() && mpp != None
      modifies this`mpp, this`flags
      ensures Model() == NewHeader(old(Model()), w)
    {
      hide Lookup, Set, Chomp;
      var p := mpp.value;
      var data := 0;
      while data < |w| && w[data] != ':'
        invariant 0 <= data <= |w| && ColonIndex(w, 0) == ColonIndex(w, data)
      {
        data := data + 1;
      }
      if data == |w| {
        flags := flags.(error := true);
        return;
      }
      var name := w[..data];
      if data == 0 {
        flags := flags.(error := true);
        return;
      }
      data := data + 1;
      ghost var start := data;
      while data < |w| && (w[data] == '\t' || w[data] == ' ')
        invariant start <= data <= |w| && SkipBlank(w, start) == SkipBlank(w, data)
      {
        data := data + 1;
      }
      var value := Chomp(w[data..]);
      if Lookup(p.headers, name) != None {
        flags := flags.(error := true);
        return;
      }
      mpp := Some(p.(headers := Set(p.headers, name, value), lastHeader := Some(name)));
    }

    method ProcessPartHeader(w: string)
      requires Room() && mpp != None && w != "" && PartOk(Model())
      modifies this`mpp, this`mppState, this`flags
      ensures Model() == HeaderLine(old(Model()), w)
    {
      hide EndOfHeaders, FoldHeader, NewHeader, Flatten, Lookup, Set;
      for i := 0 to |w|
        invariant forall k :: 0 <= k < i ==> w[k] != '\0'
      {
        if w[i] == '\0' {
          flags := flags.(error := true);
          return;
        }
      }
      if |w| > 1 {
        if w[|w| - 2] == '\r' {
          flags := flags.(crlfLine := true);
        } else {
          flags := flags.(lfLine := true);
        }
      } else {
        flags := flags.(lfLine := true);
      }
      if (At(w, 0) == '\r' && At(w, 1) == '\n' && At(w, 2) == '\0') || (At(w, 0) == '\n' && At(w, 1) == '\0') {
        EmptyHeaderLine();
      } else if IsSpace(w[0]) {
        FoldedHeaderLine(w);
      } else {
        NewHeaderLine(w);
      }
    }

    /** Splits off the line break that may belong to a boundary. */
    method HoldBack(w: string) returns (body: string, localreserve: string)
      requires w != ""
      ensures body == Body(w) && localreserve == Break(w)
    {
      var n := |w|;
      if n >= 1 && w[n - 1] == '\n' {
        if n >= 2 && w[n - 2] == '\r' {
          n := n - 2;
        } else {
          n := n - 1;
        }
      }
      return w[..n], w[n..];
    }

    method ProcessPartData(w: string)
      requires Room() && mpp != None && w != ""
      modifies this`mpp, this`nfiles, this`reserve, this`flags
      ensures Model() == DataLine(cfg, old(Model()), w)
    {
      hide Body, Break;
      var body, localreserve := HoldBack(w);
      var p := mpp.value;
      var data := reserve + body;
      if p.kind == File {
        var extract := cfg.extractFiles;
        if extract && nfiles >= cfg.fileLimit {
          flags := flags.(fileLimitExceeded := true);
          extract := false;
        }
        if extract {
          if p.stored == None {
            p := p.(stored := Some(""));
            nfiles := nfiles + 1;
          }
          p := p.(stored := Some(p.stored.value + data));
        }
      } else {
        p := p.(values := p.values + [data]);
      }
      mpp := Some(p.(length := p.length + |data|));
      reserve := localreserve;
    }

    /** Compares the buffer, which starts a line, with the boundary. */
    method JudgeBuffer(w: string) returns (v: Verdict)
      ensures v == Judge(cfg, w)
    {
      hide CStr;
      var z := CStr(w);
      if |z| > 3 && w[0] == '-' && w[1] == '-' {
        if |z| >= |cfg.boundary| + 2 && StartsWith(z, 2, cfg.boundary) {
          var end := 2 + |cfg.boundary|;
          var last := false;
          if At(w, end) == '-' && At(w, end + 1) == '-' {
            last := true;
            end := end + 2;
          }
          if (At(w, end) == '\r' && At(w, end + 1) == '\n' && At(w, end + 2) == '\0')
             || (At(w, end) == '\n' && At(w, end + 1) == '\0') {
            return Separator(last, At(w, end) != '\n');
          }
          return Malformed;
        }
        if cfg.boundaryQuoted && |z| >= |cfg.boundary| + 3 && z[2] == '"' && StartsWith(z, 3, cfg.boundary) {
          assert z[2..3] == "\"";
          return Malformed;
        }
        assert !(cfg.boundaryQuoted && StartsWith(z, 2, "\"") && StartsWith(z, 3, cfg.boundary)) by {
          if StartsWith(z, 2, "\"") { assert z[2..3][0] == z[2]; }
        }
        var p := 2;
        while p < |z| && IsSpace(z[p])
          invariant 2 <= p <= |z| && SkipSpace(z, 2) == SkipSpace(z, p)
        {
          p := p + 1;
        }
        if p != 2 && StartsWith(z, p, cfg.boundary) {
          return Malformed;
        }
        return Unmatched;
      }
      return NoBoundary;
    }

    method LookForBoundary(w: string) returns (found: bool)
      ensures found == HidesBoundary(cfg, w)
      ensures found <==> exists i :: 0 <= i <= |w| && StartsWith(w, i, "--") && StartsWith(w, i + 2, cfg.boundary)
    {
      for i := 0 to |w|
        invariant forall k :: 0 <= k < i ==> !(StartsWith(w, k, "--") && StartsWith(w, k + 2, cfg.boundary))
      {
        DashesAt(w, i);
        if w[i] == '-' && i + 1 < |w| && w[i + 1] == '-' {
          if StartsWith(w, i + 2, cfg.boundary) {
            return true;
          }
        }
      }
      return false;
    }

    method ProcessContent(w: string, whole: bool)
      requires Room() && w != "" && PartOk(Model())
      modifies this`mpp, this`mppState, this`nfiles, this`reserve, this`flags, this`dataBefore
      ensures Model() == Content(cfg, old(Model()), w, whole)
      ensures dataBefore == (old(dataBefore) || old(mpp) == None)
    {
      hide HeaderLine, DataLine, Flatten, Lookup, Set;
      if mpp == None {
        dataBefore := true;
      } else if !mppState {
        if !whole {
          flags := flags.(error := true);
        } else {
          ProcessPartHeader(w);
        }
      } else {
        ProcessPartData(w);
      }
    }

    method TakeBoundary(last: bool, crlf: bool)
      requires Room() && PartOk(Model())
      modifies this`parts, this`boundaryCount, this`mpp, this`mppState, this`reserve, this`isComplete, this`flags
      ensures Model() == Separated(old(Model()), last, crlf)
    {
      hide Multipart.ProcessBoundary, Flatten, Lookup, Set;
      if crlf {
        flags := flags.(crlfLine := true);
      } else {
        flags := flags.(lfLine := true);
      }
      assert Model() == NoteLineEnd(old(Model()), crlf);
      ProcessBoundary(last);
      if last {
        isComplete := true;
      }
      boundaryCount := boundaryCount + 1;
    }

    method ProcessBuffer(w: string, whole: bool)
      requires Room() && w != "" && PartOk(Model())
      modifies this`parts, this`boundaryCount, this`mpp, this`mppState, this`nfiles, this`reserve, this`isComplete,
               this`flags, this`dataBefore
      ensures Model() == Process(cfg, old(Model()), w, whole)
      ensures dataBefore == (old(dataBefore) || Ignores(cfg, old(Model()), w))
    {
      hide Judge, HidesBoundary, Content, Separated, Flatten, Lookup, Set;
      if bufContainsLine {
        var v := JudgeBuffer(w);
        match v
        case Separator(last, crlf) =>
          TakeBoundary(last, crlf);
        case Malformed =>
          flags := flags.(error := true);
        case Unmatched =>
          flags := flags.(unmatchedBoundary := true);
          ProcessContent(w, whole);
        case NoBoundary =>
          var hidden := LookForBoundary(w);
          if hidden {
            flags := flags.(unmatchedBoundary := true);
          }
          ProcessContent(w, whole);
      } else {
        ProcessContent(w, whole);
      }
    }

    /** Terminates and processes the buffer, and empties it unless that failed. */
    method FlushBuffer(newline: bool, whole: bool)
      requires Room() && bufleft < BUF_SIZE && PartOk(Model())
      modifies this`parts, this`boundaryCount, this`mpp, this`mppState, this`nfiles, this`reserve, this`isComplete,
               this`flags, this`dataBefore, this`bufleft, this`bufContainsLine, buf
      ensures Room() && Model() == Flush(cfg, old(Model()), newline, whole)
      ensures dataBefore == (old(dataBefore) || Ignores(cfg, old(Model()), old(Model()).buf))
      ensures !flags.error ==> bufleft == BUF_SIZE
    {
      hide Process, PartOk, Judge;
      var n := BUF_SIZE - bufleft;
      buf[n] := '\0';
      var w := buf[..n];
      assert w == old(buf[..n]);
      assert Model() == old(Model());
      ProcessBuffer(w, whole);
      if !flags.error {
        bufleft := BUF_SIZE;
        bufContainsLine := newline;
      }
    }

    method PutByte(c: char)
      requires Room() && bufleft > 0
      modifies this`bufleft, buf
      ensures Room() && bufleft == old(bufleft) - 1
      ensures Model() == old(Model()).(buf := old(Model()).buf + [c])
    {
      buf[BUF_SIZE - bufleft] := c;
      bufleft := bufleft - 1;
      assert buf[..BUF_SIZE - bufleft] == old(buf[..BUF_SIZE - bufleft]) + [c];
    }

    /** One round of the loop. A carriage return that would fill the buffer is not
        taken: the buffer is processed first, so that the carriage return shares
        the next one with a line feed behind it. */
    method Round(c: char) returns (taken: bool)
      requires Room() && 0 < bufleft && Inv(Model()) && !Stopped(Model())
      modifies this`parts, this`boundaryCount, this`mpp, this`mppState, this`nfiles, this`reserve, this`isComplete,
               this`flags, this`dataBefore, this`bufleft, this`bufContainsLine, buf
      ensures Room()
      ensures taken == !TooEarly(old(Model()), c) == !(c == '\r' && old(bufleft) == 1)
      ensures taken ==> Taken(cfg, old(SessionModel()), SessionModel(), c)
      ensures !taken ==> Processed(cfg, old(SessionModel()), SessionModel())
      ensures !taken && !flags.error ==> bufleft == BUF_SIZE
    {
      hide Flush, Inv, Ignores, PartOk;
      var processBuffer := false;
      InvPart(Model(), c);
      if c == '\r' && bufleft == 1 {
        processBuffer := true;
      } else {
        PutByte(c);
      }
      if c == '\n' || bufleft == 0 || processBuffer {
        FlushBuffer(c == '\n', bufleft != 0 && !processBuffer);
      }
      taken := !processBuffer;
    }

    /** The loop of ProcessChunk. */
    method TakeBytes(input: string) returns (rc: int)
      requires Valid() && !Stopped(Model()) && input != ""
      modifies this, buf
      ensures Valid()
      ensures SessionModel() == ReadBytes(cfg, old(SessionModel()), input)
      ensures rc == if flags.error then -1 else 1
    {
      hide Step, StepIgnores, Inv, Held, Ignores, Flush, RunSession, ReadBytes, SessionStep, Taken, Processed, TooEarly;
      ghost var f := SessionModel();
      InvRoom(Model());
      RunSessionEmpty(cfg, f);
      assert input[..0] == "";
      var inptr := 0;
      ghost var g := f;
      while inptr < |input|
        invariant 0 <= inptr <= |input| && Room() && 0 < bufleft
        invariant !Stopped(Model()) && Inv(Model())
        invariant g == RunSession(cfg, f, input[..inptr]) && Inv(g.state) && !Stopped(g.state)
        invariant SessionModel() == g || (inptr < |input| && Held(cfg, g, SessionModel(), input[inptr]))
        decreases |input| - inptr, if bufleft == 1 then 1 else 0
      {
        ghost var before := SessionModel();
        var c := input[inptr];
        RunSessionNext(cfg, f, input, inptr);
        ghost var n := inptr + 1;
        var taken := Round(c);
        if taken {
          inptr := inptr + 1;
          Consumes(cfg, g, before, SessionModel(), c);
          g := SessionModel();
        } else {
          RoundHolds(cfg, g, before, SessionModel(), c);
        }
        if flags.error || isComplete {
          ReadBytesIs(cfg, f, input, n);
          if flags.error {
            return -1;
          }
          if inptr < |input| {
            dataAfter := true;
          }
          return 1;
        }
        InvRoom(Model());
      }
      assert input[..inptr] == input;
      NotStoppedBefore(cfg, f, input);
      ReadBytesIs(cfg, f, input, |input|);
      rc := 1;
    }

    /** Takes the bytes of one network read; -1 tells the caller to make no more calls. */
    method ProcessChunk(input: string) returns (rc: int)
      requires Valid() && !flags.error
      modifies this, buf
      ensures Valid()
      ensures SessionModel() == Chunk(cfg, old(SessionModel()), input)
      ensures rc == if flags.error then -1 else 1
    {
      hide Inv, ReadBytes;
      if |input| == 0 {
        return 1;
      }
      seenData := true;
      InvSeen(old(Model()));
      if isComplete {
        dataBefore := true;
        return 1;
      }
      InvRoom(Model());
      assert bufleft != 0;
      rc := TakeBytes(input);
    }

    /** The end of the body; -1 when its closing boundary never came. */
    method Complete() returns (rc: int)
      requires Valid()
      modifies this`parts, this`mpp, this`mppState, this`reserve, this`flags, this`isComplete
      ensures (rc, Model()) == Multipart.Complete(cfg, old(Model()))
    {
      hide Lookup, Set, Flatten;
      if seenData && !isComplete {
        if boundaryCount > 0 {
          if bufContainsLine {
            var w := buf[..BUF_SIZE - bufleft];
            if w == "--" + cfg.boundary + "--" {
              ProcessBoundary(true);
              isComplete := true;
            }
          }
          if !isComplete {
            return -1;
          }
        } else {
          return -1;
        }
      }
      return 1;
    }
  }
}
