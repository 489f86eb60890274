/** The data of one part: what the parser has kept of it after any number of
    buffers, and which lines it takes for boundaries. */
module MultipartContent {
  import opened Wrappers
  import opened Sequences
  import opened CStrings
  import opened Tables
  import opened Multipart
  import opened MultipartParser

  // A header line of a part, besides Content-Disposition.
  datatype Extra = Extra(name: string, value: string)

  // A body part as the sender means it, with the spelling of the name Content-Disposition.
  datatype Field = Field(name: string, filename: Option<string>, spelling: string, extras: seq<Extra>, data: string)

  /** The table holds the value of each of the first n extra headers under its name. */
  ghost predicate HeadersStored(t: Table, f: Field, n: nat)
    requires n <= |f.extras|
  {
    forall i :: 0 <= i < n ==> Lookup(t, f.extras[i].name) == Some(f.extras[i].value)
  }

  function KindOf(f: Field): Kind {
    if f.filename == None then FormData else File
  }

  // ---------- lines that are not data ----------

  /** A line the parser does not take for data: two dashes and the boundary,
      possibly with whitespace, or a quote if the header quoted it, in between. */
  ghost predicate BoundaryLike(cfg: Config, w: string) {
    var z := CStr(w);
    && |z| > 3 && z[0] == '-' && z[1] == '-'
    && (|| StartsWith(z, 2, cfg.boundary)
        || (cfg.boundaryQuoted && z[2] == '"' && StartsWith(z, 3, cfg.boundary))
        || (exists p :: 2 < p < |z| && AllSpace(z, 2, p) && !IsSpace(z[p]) && StartsWith(z, p, cfg.boundary)))
  }

  ghost predicate AllSpace(z: string, i: nat, j: nat)
    requires i <= j <= |z|
  {
    forall k :: i <= k < j ==> IsSpace(z[k])
  }

  /** What multipart_init accepts, with room for a boundary line in the buffer. */
  predicate ValidConfig(cfg: Config) {
    && cfg.boundary != "" && |cfg.boundary| <= 1024
    && forall i :: 0 <= i < |cfg.boundary| ==>
         ' ' <= cfg.boundary[i] <= '~' && cfg.boundary[i] !in "()<>@,;:\\\"/[]?="
  }

  lemma BoundaryPlain(cfg: Config)
    requires ValidConfig(cfg)
    ensures cfg.boundary != ""
    ensures forall i :: 0 <= i < |cfg.boundary| ==> cfg.boundary[i] != '\0' && cfg.boundary[i] != '\n' && cfg.boundary[i] != '\r'
  {
  }

  /** The parser refuses a line as data exactly when it is like a boundary. */
  lemma JudgeExact(cfg: Config, w: string)
    requires ValidConfig(cfg)
    ensures BoundaryLike(cfg, w) <==> Judge(cfg, w).Separator? || Judge(cfg, w).Malformed?
  {
    hide CStr, IsSpace, SkipSpace;
    var z := CStr(w);
    if |z| > 3 {
      var q := SkipSpace(z, 2);
      forall p | 2 < p < |z| && AllSpace(z, 2, p) && !IsSpace(z[p])
        ensures p == q
      {
      }
      assert cfg.boundary != "";
      if q != 2 && StartsWith(z, q, cfg.boundary) {
        assert AllSpace(z, 2, q) && q < |z|;
      }
      assert StartsWith(z, 2, "\"") == (z[2] == '"') by { QuoteAt(z, 2); }
    }
  }

  lemma QuoteAt(z: string, i: nat)
    requires i < |z|
    ensures StartsWith(z, i, "\"") == (z[i] == '"')
  {
    if z[i] == '"' { assert z[i..i + 1] == "\""; }
    if z[i..i + 1] == "\"" { assert z[i..i + 1][0] == '"'; }
  }

  /** A carriage return behind a buffer does not make it more like a boundary. */
  lemma CarriageReturnIrrelevant(cfg: Config, w: string)
    requires ValidConfig(cfg) && |w| > 3
    ensures BoundaryLike(cfg, w + "\r") == BoundaryLike(cfg, w)
  {
    hide CStr;
    CStrPush(w, '\r');
    BoundaryPlain(cfg);
    var z, z' := CStr(w), CStr(w + "\r");
    if z' != z && |z| > 3 {
      assert z' == z + "\r";
      forall p | 2 <= p <= |z'|
        ensures StartsWith(z', p, cfg.boundary) == StartsWith(z, p, cfg.boundary)
      {
        StartsWithPush(z, '\r', p, cfg.boundary);
      }
      forall p | 2 < p < |z|
        ensures AllSpace(z, 2, p) == AllSpace(z', 2, p)
      {
        assert forall k :: 2 <= k < p ==> z[k] == z'[k];
      }
    }
  }

  lemma StartsWithPush(z: string, c: char, p: nat, b: string)
    requires b != "" && b[|b| - 1] != c
    ensures StartsWith(z + [c], p, b) == StartsWith(z, p, b)
  {
    var z' := z + [c];
    if p + |b| <= |z| {
      assert z'[p..p + |b|] == z[p..p + |b|];
    } else if p + |b| == |z'| {
      assert z'[p..][|b| - 1] == c;
      assert z'[p..p + |b|] == z'[p..];
    }
  }

  lemma {:induction false} CStrPush(w: string, c: char)
    requires c != '\0'
    ensures CStr(w + [c]) == if NulFree(w) then w + [c] else CStr(w)
    decreases |w|
  {
    if w == "" {
      assert w + [c] == [c];
    } else {
      assert (w + [c])[1..] == w[1..] + [c];
      if w[0] != '\0' {
        CStrPush(w[1..], c);
        assert NulFree(w) == NulFree(w[1..]) by {
          if NulFree(w[1..]) {
            assert forall i :: 1 <= i < |w| ==> w[i] == w[1..][i - 1];
          }
        }
        if NulFree(w) { assert [w[0]] + (w[1..] + [c]) == w + [c]; }
      }
    }
  }

  // ---------- what is kept of the data ----------

  /** Where a part stands: the files opened before it, whether the limit on files
      was reported before it, and the first buffer of its data. */
  datatype Place = Place(before: nat, exceeded: bool, first: string)

  predicate Extracted(cfg: Config, f: Field) {
    f.filename != None && cfg.extractFiles
  }

  /** What the file on disk holds behind the data `done`: a file that is opened
      below the limit grows with every buffer, the last one that may be opened
      keeps its first buffer, and later ones are not opened. */
  function OnDisk(cfg: Config, f: Field, b: Place, done: string): Option<string> {
    if !Extracted(cfg, f) || b.before >= cfg.fileLimit || done == "" then None
    else Some(Body(if b.before + 1 < cfg.fileLimit then done else b.first))
  }

  function OpenedBy(cfg: Config, f: Field, b: Place, done: string): nat {
    if OnDisk(cfg, f, b, done) == None then b.before else b.before + 1
  }

  predicate ExceededBy(cfg: Config, f: Field, b: Place, done: string) {
    || b.exceeded
    || (Extracted(cfg, f) && done != ""
        && (b.before >= cfg.fileLimit || (b.before + 1 >= cfg.fileLimit && done != b.first)))
  }

  /** done is all the data whose buffers have been processed. */
  ghost predicate Kept(cfg: Config, s: State, f: Field, b: Place, done: string) {
    && s.part != None && s.inData
    && s.reserve == Break(done)
    && (var p := s.part.value;
        && p.name == Some(f.name) && p.filename == f.filename && p.kind == KindOf(f)
        && p.length == |Body(done)|
        && (p.kind == FormData ==> Flatten(p.values) == Body(done))
        && p.stored == OnDisk(cfg, f, b, done)
        && HeadersStored(p.headers, f, |f.extras|))
    && s.nfiles == OpenedBy(cfg, f, b, done)
    && s.flags.fileLimitExceeded == ExceededBy(cfg, f, b, done)
    && (done != "" ==> b.first <= done)
  }

  lemma BreakLenPush(done: string, w: string)
    requires w != "" && (done != "" && done[|done| - 1] == '\r' ==> w[0] != '\n')
    ensures BreakLen(done + w) == BreakLen(w)
  {
    var t := done + w;
    assert t[|t| - 1] == w[|w| - 1];
    if |w| >= 2 {
      assert t[|t| - 2] == w[|w| - 2];
    } else if done != "" {
      assert t[|t| - 2] == done[|done| - 1];
    }
  }

  lemma BreakPush(done: string, w: string)
    requires w != "" && (done != "" && done[|done| - 1] == '\r' ==> w[0] != '\n')
    ensures Break(done + w) == Break(w) && Body(done + w) == (Body(done) + Break(done)) + Body(w)
  {
    hide BreakLen;
    BreakLenPush(done, w);
    var n := BreakLen(w);
    assert Body(done) + Break(done) == done;
    assert (done + w)[|done + w| - n..] == w[|w| - n..];
    assert (done + w)[..|done + w| - n] == done + w[..|w| - n];
  }

  lemma DataLineKeeps(cfg: Config, s: State, f: Field, b: Place, done: string, w: string)
    requires Kept(cfg, s, f, b, done) && w != "" && (done == "" ==> w == b.first)
    requires done != "" && done[|done| - 1] == '\r' ==> w[0] != '\n'
    ensures Kept(cfg, DataLine(cfg, s, w), f, b, done + w)
  {
    hide Break, Body, Flatten, HeadersStored;
    BreakPush(done, w);
    var p := s.part.value;
    var chunk := s.reserve + Body(w);
    assert (Body(done) + Break(done)) + Body(w) == Body(done) + chunk;
    FlattenSnoc(p.values, chunk);
    assert done + w != "" && b.first <= done + w;
    if done == "" {
      BodyEmpty();
      assert done + w == w && chunk == Body(w) && "" + chunk == chunk;
    } else {
      assert |done + w| > |b.first|;
    }
  }

  lemma BodyEmpty()
    ensures Body("") == "" && Break("") == ""
  {
  }

  /** A buffer inside the data of a part is kept, unless it starts a line and is like a boundary. */
  lemma ProcessKeeps(cfg: Config, s: State, f: Field, b: Place, done: string, w: string, whole: bool)
    requires ValidConfig(cfg) && Kept(cfg, s, f, b, done) && w != "" && (done == "" ==> w == b.first)
    requires done != "" && done[|done| - 1] == '\r' ==> w[0] != '\n'
    requires s.containsLine ==> !BoundaryLike(cfg, w)
    ensures var t := Process(cfg, s, w, whole);
            && Kept(cfg, t, f, b, done + w)
            && t.parts == s.parts && t.complete == s.complete && t.flags.error == s.flags.error && t.seenData == s.seenData
  {
    hide BoundaryLike, Kept, Process, DataLine;
    JudgeExact(cfg, w);
    KeptHasPart(cfg, s, f, b, done);
    if s.containsLine {
      var marked := NoteUnmatched(s, Judge(cfg, w) == Unmatched || HidesBoundary(cfg, w));
      KeptMarked(cfg, s, f, b, done, Judge(cfg, w) == Unmatched || HidesBoundary(cfg, w));
      ProcessIsData(cfg, s, w, whole);
      DataLineKeeps(cfg, marked, f, b, done, w);
      DataLineFrame(cfg, marked, w);
    } else {
      ProcessIsData(cfg, s, w, whole);
      DataLineKeeps(cfg, s, f, b, done, w);
      DataLineFrame(cfg, s, w);
    }
  }

  lemma ProcessIsData(cfg: Config, s: State, w: string, whole: bool)
    requires s.part != None && s.inData && w != ""
    requires s.containsLine ==> !Judge(cfg, w).Separator? && !Judge(cfg, w).Malformed?
    ensures Process(cfg, s, w, whole)
         == DataLine(cfg, if s.containsLine then NoteUnmatched(s, Judge(cfg, w) == Unmatched || HidesBoundary(cfg, w)) else s, w)
  {
    hide Judge, HidesBoundary, DataLine;
  }

  lemma DataLineFrame(cfg: Config, s: State, w: string)
    requires s.part != None
    ensures var t := DataLine(cfg, s, w);
            && t.parts == s.parts && t.complete == s.complete && t.flags.error == s.flags.error
            && t.seenData == s.seenData && t.buf == s.buf && t.containsLine == s.containsLine
  {
    hide Break, Body;
  }

  lemma KeptMarked(cfg: Config, s: State, f: Field, b: Place, done: string, found: bool)
    requires Kept(cfg, s, f, b, done)
    ensures Kept(cfg, NoteUnmatched(s, found), f, b, done)
  {
    hide Break, Body, Flatten, HeadersStored;
  }

  lemma KeptHasPart(cfg: Config, s: State, f: Field, b: Place, done: string)
    requires Kept(cfg, s, f, b, done)
    ensures s.part != None && s.inData
  {
  }

  // ---------- one byte of data ----------

  predicate AtLine(done: string) {
    done == "" || done[|done| - 1] == '\n'
  }

  /** Bytes behind the last line feed. */
  function LineLength(text: string): nat {
    if AtLine(text) then 0 else 1 + LineLength(text[..|text| - 1])
  }

  lemma LineLengthPush(text: string, c: char)
    ensures LineLength(text + [c]) == if c == '\n' then 0 else LineLength(text) + 1
  {
    assert (text + [c])[..|text|] == text;
  }

  lemma {:induction false} LineLengthAtLeast(text: string, n: nat)
    requires n <= |text| && forall i :: |text| - n <= i < |text| ==> text[i] != '\n'
    ensures LineLength(text) >= n
    decreases |text|
  {
    if n > 0 {
      LineLengthAtLeast(text[..|text| - 1], n - 1);
    }
  }

  /** Inside the data of a part, with `text` read so far. */
  ghost predicate Reading(cfg: Config, s: State, f: Field, b: Place, parts: seq<Part>, text: string) {
    && !Stopped(s) && s.parts == parts
    && |s.buf| < BUF_SIZE && |s.buf| <= |text|
    && (forall i :: 0 <= i < |s.buf| ==> s.buf[i] != '\n')
    && (var done := text[..|text| - |s.buf|];
        && s.buf == text[|done|..]
        && s.containsLine == AtLine(done)
        && (!s.containsLine ==> LineLength(text) >= BUF_SIZE)
        && (done != "" && done[|done| - 1] == '\r' ==> s.buf != "" && s.buf[0] == '\r')
        && Kept(cfg, s, f, b, done))
  }

  /** text[i..j] is what the buffer holds when the parser looks at the line that starts at i. */
  predicate Window(text: string, i: nat, j: nat) {
    && i < j <= |text| && j - i <= 4096
    && AtLine(text[..i])
    && (forall k :: i <= k < j - 1 ==> text[k] != '\n')
    && (text[j - 1] == '\n' || j - i == 4096)
  }

  /** No line of the data is like a boundary, as far as one buffer reaches. */
  ghost predicate Clean(cfg: Config, text: string) {
    forall i: nat, j: nat :: Window(text, i, j) ==> !BoundaryLike(cfg, text[i..j])
  }

  lemma TakeByte(cfg: Config, s: State, f: Field, b: Place, parts: seq<Part>, text: string, c: char)
    requires Reading(cfg, s, f, b, parts, text) && c != '\n' && !TooEarly(s, c) && |s.buf| + 1 < BUF_SIZE
    ensures Reading(cfg, Step(cfg, s, c), f, b, parts, text + [c])
  {
    hide Kept, AtLine, LineLength;
    LineLengthPush(text, c);
    KeptBuf(cfg, s, f, b, text[..|text| - |s.buf|], s.buf + [c], s.containsLine);
    assert (text + [c])[..|text| - |s.buf|] == text[..|text| - |s.buf|];
  }

  lemma KeptBuf(cfg: Config, s: State, f: Field, b: Place, done: string, buf: string, line: bool)
    ensures Kept(cfg, s.(buf := buf, containsLine := line), f, b, done) == Kept(cfg, s, f, b, done)
  {
    hide Break, Body, Flatten, HeadersStored;
  }

  /** The byte that ends a line or fills the buffer. */
  lemma FillByte(cfg: Config, s: State, f: Field, b: Place, parts: seq<Part>, text: string, c: char)
    requires ValidConfig(cfg) && Reading(cfg, s, f, b, parts, text)
    requires !TooEarly(s, c) && (c == '\n' || |s.buf| + 1 == BUF_SIZE)
    requires s.containsLine ==> !BoundaryLike(cfg, s.buf + [c])
    requires |s.buf| == |text| ==> text + [c] == b.first
    ensures Reading(cfg, Step(cfg, s, c), f, b, parts, text + [c])
    ensures Step(cfg, s, c).buf == ""
  {
    hide Kept, Process, BoundaryLike, LineLength;
    LineLengthPush(text, c);
    LineLengthAtLeast(text, |s.buf|);
    var done := text[..|text| - |s.buf|];
    var w := s.buf + [c];
    var t := s.(buf := w);
    KeptBuf(cfg, s, f, b, done, w, s.containsLine);
    ProcessKeeps(cfg, t, f, b, done, w, |w| < BUF_SIZE);
    assert done + w == text + [c];
    var u := Process(cfg, t, w, |w| < BUF_SIZE);
    KeptBuf(cfg, u, f, b, done + w, "", c == '\n');
    assert (text + [c])[..|text| + 1] == text + [c];
  }

  /** A carriage return that does not fit any more. */
  lemma EarlyByte(cfg: Config, s: State, f: Field, b: Place, parts: seq<Part>, text: string, c: char)
    requires ValidConfig(cfg) && Reading(cfg, s, f, b, parts, text) && TooEarly(s, c)
    requires s.containsLine ==> !BoundaryLike(cfg, s.buf)
    requires |s.buf| == |text| ==> text == b.first
    ensures Reading(cfg, Step(cfg, s, c), f, b, parts, text + [c])
  {
    hide Kept, Process, BoundaryLike, LineLength;
    LineLengthPush(text, c);
    LineLengthAtLeast(text, |s.buf|);
    var done := text[..|text| - |s.buf|];
    ProcessKeeps(cfg, s, f, b, done, s.buf, false);
    assert done + s.buf == text;
    var u := Process(cfg, s, s.buf, false);
    KeptBuf(cfg, u, f, b, text, [c], false);
    assert (text + [c])[..|text|] == text;
    assert text[|text| - 1] == s.buf[|s.buf| - 1];
  }

  // ---------- the first buffer ----------

  /** Where the first line feed stands, or the length if there is none. */
  function LineFeed(text: string): (n: nat)
    ensures n <= |text| && (n < |text| ==> text[n] == '\n')
    ensures forall i :: 0 <= i < n ==> text[i] != '\n'
  {
    if text == "" || text[0] == '\n' then 0 else 1 + LineFeed(text[1..])
  }

  /** The bytes of the data that the parser looks at first: up to a line feed, or
      as many as the buffer takes if it may not end in a carriage return. */
  function FirstBuffer(text: string): string {
    var n := LineFeed(text);
    if n < BUF_SIZE then text[..if n < |text| then n + 1 else n]
    else if n > BUF_SIZE - 1 && text[BUF_SIZE - 1] == '\r' then text[..BUF_SIZE - 1]
    else text[..BUF_SIZE]
  }

  /** The buffer that is dealt with at byte n, when nothing was before it. */
  lemma FirstFilled(text: string, n: nat)
    requires n < |text| && n < BUF_SIZE && (forall i :: 0 <= i < n ==> text[i] != '\n')
    requires text[n] == '\n' || n + 1 == BUF_SIZE
    ensures FirstBuffer(text) == if text[n] == '\r' then text[..n] else text[..n + 1]
  {
    var m := LineFeed(text);
    if text[n] == '\n' {
      assert m == n;
    } else {
      assert m >= BUF_SIZE;
    }
  }

  // ---------- all the data ----------

  ghost predicate CleanAt(cfg: Config, text: string, j: nat)
    requires j <= |text|
  {
    forall i: nat :: Window(text, i, j) ==> !BoundaryLike(cfg, text[i..j])
  }

  /** The buffer that ends at, or just before, byte n is a window of the data. */
  lemma BufferIsWindow(s: State, text: string, n: nat)
    requires n < |text| && |s.buf| < BUF_SIZE && |s.buf| <= n && s.buf == text[n - |s.buf|..n]
    requires forall i :: 0 <= i < |s.buf| ==> s.buf[i] != '\n'
    requires AtLine(text[..n - |s.buf|])
    requires text[n] == '\n' || |s.buf| + 1 == BUF_SIZE
    ensures Window(text, n - |s.buf|, n + 1) && text[n - |s.buf|..n + 1] == s.buf + [text[n]]
  {
    var i := n - |s.buf|;
    forall k | i <= k < n ensures text[k] != '\n' { assert text[k] == s.buf[k - i]; }
  }

  lemma ByteKeeps(cfg: Config, s: State, f: Field, b: Place, parts: seq<Part>, text: string, n: nat)
    requires ValidConfig(cfg) && n < |text| && Reading(cfg, s, f, b, parts, text[..n]) && CleanAt(cfg, text, n + 1)
    requires b.first == FirstBuffer(text)
    ensures Reading(cfg, Step(cfg, s, text[n]), f, b, parts, text[..n + 1])
    ensures text[n] == '\n' ==> Step(cfg, s, text[n]).buf == ""
  {
    hide Kept, BoundaryLike, Step, LineLength, FirstBuffer;
    var c := text[n];
    var done := text[..n][..n - |s.buf|];
    assert done == text[..n - |s.buf|];
    assert text[..n] + [c] == text[..n + 1];
    assert s.buf == text[n - |s.buf|..n];
    if c != '\n' && |s.buf| + 1 < BUF_SIZE {
      TakeByte(cfg, s, f, b, parts, text[..n], c);
    } else {
      if |s.buf| == n {
        assert text[..n] == s.buf;
        forall i | 0 <= i < n ensures text[i] != '\n' { assert text[i] == s.buf[i]; }
        FirstFilled(text, n);
      }
      if s.containsLine {
        BufferIsWindow(s, text, n);
        if c == '\r' { CarriageReturnIrrelevant(cfg, s.buf); }
      }
      if TooEarly(s, c) {
        EarlyByte(cfg, s, f, b, parts, text[..n], c);
      } else {
        FillByte(cfg, s, f, b, parts, text[..n], c);
      }
    }
  }

  lemma {:induction false} DataKeeps(cfg: Config, s: State, f: Field, b: Place, parts: seq<Part>, text: string, n: nat)
    requires ValidConfig(cfg) && n <= |text| && Reading(cfg, s, f, b, parts, "") && b.first == FirstBuffer(text)
    requires forall j: nat :: j <= n ==> CleanAt(cfg, text, j)
    ensures Reading(cfg, Run(cfg, s, text[..n]), f, b, parts, text[..n])
    ensures n > 0 && text[n - 1] == '\n' ==> Run(cfg, s, text[..n]).buf == ""
  {
    hide Reading, Step, CleanAt, FirstBuffer;
    if n > 0 {
      DataKeeps(cfg, s, f, b, parts, text, n - 1);
      ByteKeeps(cfg, Run(cfg, s, text[..n - 1]), f, b, parts, text, n - 1);
      assert text[..n][..n - 1] == text[..n - 1];
    }
  }

  // ---------- a line that is like a boundary ----------

  /** The part being built was closed too early, or the body was refused. */
  ghost predicate Cut(s: State, parts: seq<Part>, length: nat) {
    s.flags.error || (|s.parts| > |parts| && s.parts[|parts|].length < length)
  }

  lemma ProcessCuts(cfg: Config, s: State, f: Field, b: Place, done: string, w: string, whole: bool, length: nat)
    requires ValidConfig(cfg) && Kept(cfg, s, f, b, done) && w != "" && |done| < length
    requires s.containsLine && BoundaryLike(cfg, w)
    ensures Cut(Process(cfg, s, w, whole), s.parts, length)
  {
    hide Judge, BoundaryLike, Break, Flatten;
    JudgeExact(cfg, w);
  }

  lemma WindowStart(cfg: Config, s: State, f: Field, b: Place, parts: seq<Part>, text: string, n: nat, i: nat)
    requires n < |text| && Reading(cfg, s, f, b, parts, text[..n]) && Window(text, i, n + 1)
    ensures s.containsLine && i == n - |s.buf|
  {
    hide Kept, LineLength;
    assert text[..n][..i] == text[..i];
    LineLengthFrom(text[..n], i);
    var done := text[..n][..n - |s.buf|];
    assert s.containsLine;
    forall k | |done| <= k < n ensures text[..n][k] != '\n' { assert text[..n][k] == s.buf[k - |done|]; }
    LineLengthFrom(text[..n], |done|);
  }

  lemma {:induction false} LineLengthFrom(text: string, i: nat)
    requires i <= |text| && AtLine(text[..i]) && forall k :: i <= k < |text| ==> text[k] != '\n'
    ensures LineLength(text) == |text| - i
    decreases |text|
  {
    if i < |text| {
      assert text[..|text| - 1][..i] == text[..i];
      LineLengthFrom(text[..|text| - 1], i);
    } else {
      assert text[..i] == text;
    }
  }

  lemma ByteCuts(cfg: Config, s: State, f: Field, b: Place, parts: seq<Part>, text: string, n: nat, i: nat, length: nat)
    requires ValidConfig(cfg) && n < |text| && Reading(cfg, s, f, b, parts, text[..n])
    requires Window(text, i, n + 1) && BoundaryLike(cfg, text[i..n + 1]) && i < length
    ensures Cut(Step(cfg, s, text[n]), parts, length)
  {
    hide Kept, BoundaryLike, Process, Window, LineLength;
    var c := text[n];
    WindowStart(cfg, s, f, b, parts, text, n, i);
    var done := text[..n][..i];
    assert text[i..n + 1] == s.buf + [c];
    WindowShape(text, i, n + 1);
    var w := if TooEarly(s, c) then s.buf else s.buf + [c];
    if TooEarly(s, c) { CarriageReturnIrrelevant(cfg, s.buf); }
    KeptBuf(cfg, s, f, b, done, w, s.containsLine);
    ProcessCuts(cfg, s.(buf := w), f, b, done, w, if TooEarly(s, c) then false else |w| < BUF_SIZE, length);
    assert s.(buf := s.buf) == s;
  }

  lemma WindowShape(text: string, i: nat, j: nat)
    requires Window(text, i, j)
    ensures text[j - 1] == '\n' || j - i == BUF_SIZE
  {
  }
}
