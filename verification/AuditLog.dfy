/** The audit log as the native logger frames it (apache2/msc_logging.c), and
    what the part parser reads back from it. */
module AuditLog {
  import opened Wrappers
  import opened PartParser

  datatype LogPart = LogPart(id: char, content: string)

  datatype LogEntry = LogEntry(boundary: string, parts: seq<LogPart>)

  // ---------- the writer ----------

  function PrintParts(b: string, parts: seq<LogPart>): string {
    if parts == [] then ""
    else BoundaryLine(b, parts[0].id) + (parts[0].content + "\n" + PrintParts(b, parts[1..]))
  }

  /** One entry; a serial log puts an empty line behind it. */
  function Print(e: LogEntry, serial: bool): string {
    PrintParts(e.boundary, e.parts) + (BoundaryLine(e.boundary, 'Z') + (if serial then "\n" else ""))
  }

  function PrintAll(entries: seq<LogEntry>, serial: bool): string {
    if entries == [] then "" else Print(entries[0], serial) + PrintAll(entries[1..], serial)
  }

  class Log {
    var text: string

    constructor ()
      ensures text == ""
    {
      text := "";
    }

    method Write(data: string)
      modifies this
      ensures text == old(text) + data
    {
      text := text + data;
    }

    /** The header goes first without a leading line break; every later boundary
        line brings the line break that ends the part in front of it. */
    method WriteEntry(b: string, header: string, rest: seq<LogPart>, serial: bool)
      modifies this
      ensures text == old(text) + Print(LogEntry(b, [LogPart('A', header)] + rest), serial)
    {
      hide BoundaryLine, PrintParts, Print;
      Write(BoundaryLine(b, 'A'));
      Write(header);
      ghost var all := text + PrintTail(b, rest);
      for i := 0 to |rest|
        invariant text + PrintTail(b, rest[i..]) == all
      {
        TailStep(text, b, rest, i);
        Write("\n" + BoundaryLine(b, rest[i].id));
        Write(rest[i].content);
      }
      assert text == all by { TailEnd(text, b, rest); }
      Write("\n" + BoundaryLine(b, 'Z'));
      if serial {
        Write("\n");
      }
      PrintIsTail(old(text), b, header, rest, serial);
    }
  }

  // The parts behind the first, each led by the line break that ends the one before it.
  ghost function PrintTail(b: string, rest: seq<LogPart>): string {
    if rest == [] then ""
    else ("\n" + BoundaryLine(b, rest[0].id)) + rest[0].content + PrintTail(b, rest[1..])
  }

  lemma TailStep(text: string, b: string, rest: seq<LogPart>, i: nat)
    requires i < |rest|
    ensures text + PrintTail(b, rest[i..])
         == text + ("\n" + BoundaryLine(b, rest[i].id)) + rest[i].content + PrintTail(b, rest[i + 1..])
  {
    hide BoundaryLine;
    assert rest[i..][1..] == rest[i + 1..];
  }

  lemma TailEnd(text: string, b: string, rest: seq<LogPart>)
    ensures text + PrintTail(b, rest[|rest|..]) == text
  {
  }

  lemma {:induction false} TailIsParts(b: string, rest: seq<LogPart>)
    ensures PrintTail(b, rest) + "\n" == "\n" + PrintParts(b, rest)
    decreases |rest|
  {
    hide BoundaryLine;
    if rest != [] {
      TailIsParts(b, rest[1..]);
      var head, text := BoundaryLine(b, rest[0].id), rest[0].content;
      calc {
        PrintTail(b, rest) + "\n";
        ("\n" + head) + text + PrintTail(b, rest[1..]) + "\n";
        ("\n" + head) + text + (PrintTail(b, rest[1..]) + "\n");
        ("\n" + head) + text + ("\n" + PrintParts(b, rest[1..]));
        "\n" + (head + (text + "\n" + PrintParts(b, rest[1..])));
      }
    }
  }

  lemma PrintIsTail(text: string, b: string, header: string, rest: seq<LogPart>, serial: bool)
    ensures var t := text + BoundaryLine(b, 'A') + header + PrintTail(b, rest) + ("\n" + BoundaryLine(b, 'Z'));
            (if serial then t + "\n" else t) == text + Print(LogEntry(b, [LogPart('A', header)] + rest), serial)
  {
    hide BoundaryLine, PrintTail;
    TailIsParts(b, rest);
    var parts := [LogPart('A', header)] + rest;
    assert parts[1..] == rest;
    assert PrintParts(b, parts) == BoundaryLine(b, 'A') + (header + "\n" + PrintParts(b, rest));
    assert header + "\n" + PrintParts(b, rest) == header + ("\n" + PrintParts(b, rest));
    assert header + PrintTail(b, rest) + "\n" == header + (PrintTail(b, rest) + "\n");
  }

  // ---------- the reader: what the callback events add up to ----------

  datatype Book = Book(closed: seq<LogEntry>, boundary: string, parts: seq<LogPart>, id: char, content: string)

  function Note(k: Book, e: Event): Book {
    match e
    case EntryStart(n) => k.(boundary := n.boundary, parts := [])
    case PartStart(p) => k.(id := p.id, content := "")
    case PartData(d) => k.(content := k.content + d)
    case PartEnd(_) => k.(parts := k.parts + [LogPart(k.id, k.content)])
    case EntryEnd(_) => k.(closed := k.closed + [LogEntry(k.boundary, k.parts)])
  }

  function Collect(events: seq<Event>): Book {
    if events == [] then Book([], "", [], 'A', "")
    else Note(Collect(events[..|events| - 1]), events[|events| - 1])
  }

  lemma CollectEmit(k: Callback, s: State, e: Event)
    ensures Collect(Emit(k, s, e).events) == Note(Collect(s.events), e)
  {
    assert Emit(k, s, e).events[..|s.events|] == s.events;
  }

  ghost predicate NeverStops(k: Callback) {
    forall e :: k(e)
  }

  /** What the reader should make of printed entries: each part keeps the line break behind it. */
  function Terminated(parts: seq<LogPart>): (r: seq<LogPart>)
    ensures |r| == |parts|
    ensures forall i :: 0 <= i < |parts| ==> r[i] == LogPart(parts[i].id, parts[i].content + "\n")
  {
    seq(|parts|, i requires 0 <= i < |parts| => LogPart(parts[i].id, parts[i].content + "\n"))
  }

  function Expected(entries: seq<LogEntry>): (r: seq<LogEntry>)
    ensures |r| == |entries|
    ensures forall i :: 0 <= i < |entries| ==> r[i] == LogEntry(entries[i].boundary, Terminated(entries[i].parts))
  {
    seq(|entries|, i requires 0 <= i < |entries| => LogEntry(entries[i].boundary, Terminated(entries[i].parts)))
  }

  // ---------- lines of part content ----------

  function LineStart(t: string): (p: nat)
    ensures p <= |t|
    ensures p == 0 || t[p - 1] == '\n'
    ensures forall i :: p <= i < |t| ==> t[i] != '\n'
  {
    if t == "" || t[|t| - 1] == '\n' then |t| else LineStart(t[..|t| - 1])
  }

  predicate IsBoundaryOf(b: string, line: string) {
    |line| == |b| + 7 && 'A' <= line[|b| + 3] <= 'Z' && line == BoundaryLine(b, line[|b| + 3])
  }

  /** No line of t is a boundary line of an entry with boundary b. */
  ghost predicate Clean(b: string, t: string) {
    forall j :: 0 <= j < |t| ==> !IsBoundaryOf(b, t[LineStart(t[..j])..j + 1])
  }

  ghost predicate CleanEntry(e: LogEntry) {
    forall i :: 0 <= i < |e.parts| ==> Clean(e.boundary, e.parts[i].content + "\n")
  }

  /** What the logger guarantees about an entry: a hex boundary and parts that are not the end marker. */
  predicate Printable(e: LogEntry) {
    && ValidBoundary(e.boundary) && |e.boundary| + 7 <= 16384
    && e.parts != []
    && forall i :: 0 <= i < |e.parts| ==> 'A' <= e.parts[i].id < 'Z'
  }

  // ---------- states met while reading ----------

  ghost predicate AtLineStart(s: State) {
    Inv(s) && !s.done && s.line == "" && s.hasStart
  }

  ghost predicate Idle(s: State, closed: seq<LogEntry>) {
    AtLineStart(s) && s.entry == None && Collect(s.events).closed == closed
  }

  /** Inside part `id`, with acc read of its content so far. */
  ghost predicate InPart(s: State, closed: seq<LogEntry>, b: string, parts: seq<LogPart>, id: char, acc: string) {
    && Inv(s) && !s.done
    && s.entry != None && s.entry.value.boundary == b
    && (var k := Collect(s.events);
        k.closed == closed && k.boundary == b && k.parts == parts && k.id == id && k.content + s.line == acc)
    && (s.hasStart ==> |acc| - |s.line| == LineStart(acc))
    && (!s.hasStart ==> |acc| - LineStart(acc) >= MAX_LINE)
  }

  lemma {:induction false} FeedUnbroken(k: Callback, s: State, line: string, n: nat)
    requires AtLineStart(s) && n <= |line| && n < MAX_LINE
    requires forall i :: 0 <= i < n ==> line[i] != '\n'
    ensures Run(k, s, line[..n]) == s.(line := line[..n], offset := s.offset + n)
  {
    if n > 0 {
      FeedUnbroken(k, s, line, n - 1);
      assert line[..n][..n - 1] == line[..n - 1];
    }
  }

  lemma FeedLine(k: Callback, s: State, line: string)
    requires AtLineStart(s) && 0 < |line| <= MAX_LINE && line[|line| - 1] == '\n'
    requires forall i :: 0 <= i < |line| - 1 ==> line[i] != '\n'
    ensures Run(k, s, line) == Flush(k, EndLine(k, s.(line := line, offset := s.offset + |line|)), true)
  {
    hide EndLine;
    var n := |line| - 1;
    FeedUnbroken(k, s, line, n);
    StartsOpen(s);
    RunLast(k, s, line);
    hide Run, AtLineStart;
    var t := s.(line := line[..n], offset := s.offset + n);
    NewlineStep(k, t);
    assert line[..n] + ['\n'] == line;
    assert t.(line := t.line + ['\n'], offset := t.offset + 1) == s.(line := line, offset := s.offset + |line|);
  }

  lemma StartsOpen(s: State)
    requires AtLineStart(s)
    ensures !s.done
  {
  }

  lemma RunLast(k: Callback, s: State, line: string)
    requires line != ""
    ensures Run(k, s, line) == Step(k, Run(k, s, line[..|line| - 1]), line[|line| - 1])
  {
  }

  lemma NewlineStep(k: Callback, t: State)
    requires !t.done && |t.line| < MAX_LINE
    ensures Step(k, t, '\n') == Flush(k, EndLine(k, t.(line := t.line + ['\n'], offset := t.offset + 1)), true)
  {
    hide EndLine;
  }

  lemma BoundaryLineShape(b: string, id: char)
    requires ValidBoundary(b) && 'A' <= id <= 'Z'
    ensures forall i :: 0 <= i < |b| + 6 ==> BoundaryLine(b, id)[i] != '\n'
    ensures ParseBoundary(BoundaryLine(b, id)) == Some((b, id))
  {
    ParseBoundaryExact(BoundaryLine(b, id), b, id);
    assert forall i :: 0 <= i < |b| ==> BoundaryLine(b, id)[2 + i] == b[i];
  }

  // ---------- the effect of boundary lines ----------

  lemma OpenFirst(k: Callback, s: State, closed: seq<LogEntry>, b: string, id: char)
    requires NeverStops(k) && Idle(s, closed)
    requires ValidBoundary(b) && |b| + 7 <= MAX_LINE && 'A' <= id < 'Z'
    ensures InPart(Run(k, s, BoundaryLine(b, id)), closed, b, [], id, "")
    ensures AtLineStart(Run(k, s, BoundaryLine(b, id)))
  {
    var line := BoundaryLine(b, id);
    BoundaryLineShape(b, id);
    FeedLine(k, s, line);
    RunInv(k, s, line);
    var t := s.(line := line, offset := s.offset + |line|);
    var e := Entry(t.lineOffset, b, [], 0);
    var u := Emit(k, t.(entry := Some(e)), EntryStart(e));
    CollectEmit(k, t.(entry := Some(e)), EntryStart(e));
    var p := Part(id, t.offset, 0);
    CollectEmit(k, u.(part := Some(p)), PartStart(p));
  }

  /** Inside a part, at the start of a line, a boundary line of the entry ends the part. */
  lemma EndPart(k: Callback, s: State, closed: seq<LogEntry>, b: string, parts: seq<LogPart>,
                was: char, acc: string, id: char)
    requires AtLineStart(s) && InPart(s, closed, b, parts, was, acc)
    requires ValidBoundary(b) && |b| + 7 <= MAX_LINE && 'A' <= id <= 'Z'
    ensures var line := BoundaryLine(b, id);
            var t := s.(line := line, offset := s.offset + |line|);
            Run(k, s, line) == Flush(k, OpenPart(k, ClosePart(k, t, id), b, id), true)
    ensures var line := BoundaryLine(b, id);
            var t := s.(line := line, offset := s.offset + |line|);
            var c := Collect(ClosePart(k, t, id).events);
            && c.boundary == b && c.parts == parts + [LogPart(was, acc)]
            && c.closed == if id == 'Z' then closed + [LogEntry(b, parts + [LogPart(was, acc)])] else closed
  {
    hide LineStart, ParseBoundary, BoundaryLine, OpenPart, ClosePart, Collect;
    var line := BoundaryLine(b, id);
    BoundaryLineShape(b, id);
    assert |line| == |b| + 7 && line[|b| + 6] == '\n' by { BoundaryLineEnd(b, id); }
    FeedLine(k, s, line);
    CloseCollects(k, s.(line := line, offset := s.offset + |line|), id);
    assert Collect(s.events).content + "" == Collect(s.events).content;
  }

  lemma BoundaryLineEnd(b: string, id: char)
    ensures |BoundaryLine(b, id)| == |b| + 7 && BoundaryLine(b, id)[|b| + 6] == '\n'
  {
  }

  lemma OpenNext(k: Callback, s: State, closed: seq<LogEntry>, b: string, parts: seq<LogPart>,
                 was: char, acc: string, id: char)
    requires NeverStops(k) && AtLineStart(s) && InPart(s, closed, b, parts, was, acc)
    requires ValidBoundary(b) && |b| + 7 <= MAX_LINE && 'A' <= id < 'Z'
    ensures InPart(Run(k, s, BoundaryLine(b, id)), closed, b, parts + [LogPart(was, acc)], id, "")
    ensures AtLineStart(Run(k, s, BoundaryLine(b, id)))
  {
    hide Run, Collect, BoundaryLine, ParseBoundary;
    var line := BoundaryLine(b, id);
    EndPart(k, s, closed, b, parts, was, acc, id);
    RunInv(k, s, line);
    var t := ClosePart(k, s.(line := line, offset := s.offset + |line|), id);
    var p := Part(id, t.offset, 0);
    CollectEmit(k, t.(part := Some(p)), PartStart(p));
  }

  lemma CloseCollects(k: Callback, s: State, id: char)
    requires s.part != None && s.entry != None
    ensures var c, c' := Collect(s.events), Collect(ClosePart(k, s, id).events);
            var parts := c.parts + [LogPart(c.id, c.content)];
            && c'.parts == parts && c'.boundary == c.boundary
            && c'.closed == if id == 'Z' then c.closed + [LogEntry(c.boundary, parts)] else c.closed
  {
    CollectEmit(k, s, PartEnd(s.part.value));
    if id == 'Z' {
      var t := Emit(k, s, PartEnd(s.part.value));
      var e := s.entry.value.(parts := s.entry.value.parts + [s.part.value]);
      var z := e.(size := s.offset - e.offset);
      CollectEmit(k, t.(part := None, entry := None), EntryEnd(z));
    }
  }

  lemma CloseEntry(k: Callback, s: State, closed: seq<LogEntry>, b: string, parts: seq<LogPart>, was: char, acc: string)
    requires NeverStops(k) && AtLineStart(s) && InPart(s, closed, b, parts, was, acc)
    requires ValidBoundary(b) && |b| + 7 <= MAX_LINE
    ensures Idle(Run(k, s, BoundaryLine(b, 'Z')), closed + [LogEntry(b, parts + [LogPart(was, acc)])])
  {
    hide Run, Collect, BoundaryLine, ParseBoundary;
    EndPart(k, s, closed, b, parts, was, acc, 'Z');
    RunInv(k, s, BoundaryLine(b, 'Z'));
  }

  lemma EmptyLine(k: Callback, s: State, closed: seq<LogEntry>)
    requires Idle(s, closed)
    ensures Idle(Run(k, s, "\n"), closed)
  {
    FeedLine(k, s, "\n");
  }

  // ---------- the effect of content ----------

  lemma DataCollects(k: Callback, s: State)
    requires s.part != None
    ensures Collect(Data(k, s).events) == Collect(s.events).(content := Collect(s.events).content + s.line)
  {
    CollectEmit(k, s, PartData(s.line));
  }

  lemma RoomInPart(k: Callback, s: State, closed: seq<LogEntry>, b: string, parts: seq<LogPart>, id: char, acc: string)
    requires NeverStops(k) && InPart(s, closed, b, parts, id, acc)
    ensures InPart(Room(k, s), closed, b, parts, id, acc) && |Room(k, s).line| < MAX_LINE
  {
    hide LineStart, Collect;
    DataCollects(k, s);
  }

  lemma NotRecognised(s: State, b: string)
    requires s.entry != None && s.entry.value.boundary == b
    requires !IsBoundaryOf(b, s.line)
    ensures Recognised(s) == None
  {
    hide ParseBoundary;
    var m := ParseBoundary(s.line);
    if m != None {
      ParseBoundaryExact(s.line, m.value.0, m.value.1);
    }
  }

  lemma LineStartPush(t: string, c: char)
    ensures LineStart(t + [c]) == if c == '\n' then |t| + 1 else LineStart(t)
  {
    assert (t + [c])[..|t|] == t;
  }

  lemma OpenHasPart(s: State)
    requires Inv(s) && s.entry != None
    ensures s.part != None
  {
  }

  lemma PushByte(s: State, closed: seq<LogEntry>, b: string, parts: seq<LogPart>, id: char, acc: string, c: char)
    requires InPart(s, closed, b, parts, id, acc) && |s.line| < MAX_LINE && c != '\n'
    ensures InPart(s.(line := s.line + [c], offset := s.offset + 1), closed, b, parts, id, acc + [c])
  {
    hide LineStart, Collect;
    LineStartPush(acc, c);
    var content := Collect(s.events).content;
    assert content + (s.line + [c]) == content + s.line + [c];
  }

  lemma EndByte(k: Callback, s: State, closed: seq<LogEntry>, b: string, parts: seq<LogPart>, id: char, acc: string)
    requires NeverStops(k) && InPart(s, closed, b, parts, id, acc)
    requires var t := s.(line := s.line + ['\n'], offset := s.offset + 1);
             Recognised(t) == None && Inv(Flush(k, EndLine(k, t), true))
    ensures var u := Flush(k, EndLine(k, s.(line := s.line + ['\n'], offset := s.offset + 1)), true);
            InPart(u, closed, b, parts, id, acc + ['\n']) && AtLineStart(u)
  {
    hide LineStart, Collect, Recognised, Inv;
    assert s.part != None by { OpenHasPart(s); }
    LineStartPush(acc, '\n');
    var t := s.(line := s.line + ['\n'], offset := s.offset + 1);
    DataCollects(k, t);
    var content := Collect(s.events).content;
    assert content + (s.line + ['\n']) + "" == content + s.line + ['\n'];
  }

  lemma FeedByte(k: Callback, s: State, closed: seq<LogEntry>, b: string, parts: seq<LogPart>,
                 id: char, acc: string, c: char)
    requires NeverStops(k) && InPart(s, closed, b, parts, id, acc)
    requires !IsBoundaryOf(b, acc[LineStart(acc)..] + [c])
    ensures InPart(Step(k, s, c), closed, b, parts, id, acc + [c])
    ensures c == '\n' ==> AtLineStart(Step(k, s, c))
  {
    hide InPart, AtLineStart, Inv, LineStart, IsBoundaryOf, Recognised, Room, EndLine;
    var r := Room(k, s);
    assert !s.done && Inv(s) by { InPartInv(s, closed, b, parts, id, acc); }
    RoomInPart(k, s, closed, b, parts, id, acc);
    if c == '\n' {
      StepInv(k, s, c);
      LineNotRecognised(r, closed, b, parts, id, acc);
      EndByte(k, r, closed, b, parts, id, acc);
    } else {
      PushByte(r, closed, b, parts, id, acc, c);
    }
  }

  lemma InPartInv(s: State, closed: seq<LogEntry>, b: string, parts: seq<LogPart>, id: char, acc: string)
    requires InPart(s, closed, b, parts, id, acc)
    ensures !s.done && Inv(s)
  {
  }

  lemma LineNotRecognised(s: State, closed: seq<LogEntry>, b: string, parts: seq<LogPart>, id: char, acc: string)
    requires InPart(s, closed, b, parts, id, acc) && !IsBoundaryOf(b, acc[LineStart(acc)..] + ['\n'])
    ensures Recognised(s.(line := s.line + ['\n'], offset := s.offset + 1)) == None
  {
    hide LineStart, Collect, IsBoundaryOf, Recognised;
    var t := s.(line := s.line + ['\n'], offset := s.offset + 1);
    if s.hasStart {
      assert s.line == acc[LineStart(acc)..];
      NotRecognised(t, b);
    } else {
      NotRecognisedMidLine(t);
    }
  }

  lemma NotRecognisedMidLine(s: State)
    requires !s.hasStart
    ensures Recognised(s) == None
  {
  }

  lemma CleanAt(b: string, t: string, n: nat)
    requires Clean(b, t) && n < |t|
    ensures !IsBoundaryOf(b, t[..n][LineStart(t[..n])..] + [t[n]])
  {
    assert t[..n][LineStart(t[..n])..] + [t[n]] == t[LineStart(t[..n])..n + 1];
  }

  lemma {:induction false} FeedContent(k: Callback, s: State, closed: seq<LogEntry>, b: string, parts: seq<LogPart>,
                                       id: char, t: string, n: nat)
    requires NeverStops(k) && InPart(s, closed, b, parts, id, "") && n <= |t| && Clean(b, t)
    ensures InPart(Run(k, s, t[..n]), closed, b, parts, id, t[..n])
    ensures n > 0 && t[n - 1] == '\n' ==> AtLineStart(Run(k, s, t[..n]))
  {
    hide InPart, Inv, AtLineStart, Step, LineStart, IsBoundaryOf, Clean;
    if n > 0 {
      FeedContent(k, s, closed, b, parts, id, t, n - 1);
      CleanAt(b, t, n - 1);
      FeedByte(k, Run(k, s, t[..n - 1]), closed, b, parts, id, t[..n - 1], t[n - 1]);
      RunNext(k, s, t, n - 1);
      assert t[..n - 1] + [t[n - 1]] == t[..n];
    }
  }

  // ---------- round trip ----------

  lemma {:induction false} FeedParts(k: Callback, s: State, closed: seq<LogEntry>, b: string, parts: seq<LogPart>,
                                     was: char, acc: string, rest: seq<LogPart>)
    requires NeverStops(k) && AtLineStart(s) && InPart(s, closed, b, parts, was, acc)
    requires Printable(LogEntry(b, [LogPart(was, "")] + rest))
    requires forall i :: 0 <= i < |rest| ==> Clean(b, rest[i].content + "\n")
    ensures var all := parts + [LogPart(was, acc)] + Terminated(rest);
            Idle(Run(k, s, PrintParts(b, rest) + BoundaryLine(b, 'Z')), closed + [LogEntry(b, all)])
    decreases |rest|
  {
    hide InPart, Inv, Idle, AtLineStart, Run, Clean, BoundaryLine, ValidBoundary;
    var all := parts + [LogPart(was, acc)] + Terminated(rest);
    if rest == [] {
      CloseEntry(k, s, closed, b, parts, was, acc);
      assert parts + [LogPart(was, acc)] == all;
      assert PrintParts(b, rest) + BoundaryLine(b, 'Z') == BoundaryLine(b, 'Z');
    } else {
      assert ([LogPart(was, "")] + rest)[1] == rest[0];
      var head, text := BoundaryLine(b, rest[0].id), rest[0].content + "\n";
      var tail := PrintParts(b, rest[1..]) + BoundaryLine(b, 'Z');
      OpenNext(k, s, closed, b, parts, was, acc, rest[0].id);
      var s1 := Run(k, s, head);
      FeedContent(k, s1, closed, b, parts + [LogPart(was, acc)], rest[0].id, text, |text|);
      assert text[..|text|] == text;
      var s2 := Run(k, s1, text);
      assert Printable(LogEntry(b, [LogPart(rest[0].id, "")] + rest[1..])) by {
        assert forall i :: 0 <= i < |rest| ==> ([LogPart(was, "")] + rest)[i + 1] == rest[i];
      }
      FeedParts(k, s2, closed, b, parts + [LogPart(was, acc)], rest[0].id, text, rest[1..]);
      RunSplit(k, s, head, text + tail);
      RunSplit(k, s1, text, tail);
      assert PrintParts(b, rest) + BoundaryLine(b, 'Z') == head + (text + tail);
      assert parts + [LogPart(was, acc)] + [LogPart(rest[0].id, text)] + Terminated(rest[1..]) == all;
    }
  }

  lemma FeedEntry(k: Callback, s: State, closed: seq<LogEntry>, e: LogEntry, serial: bool)
    requires NeverStops(k) && Idle(s, closed) && Printable(e) && CleanEntry(e)
    ensures Idle(Run(k, s, Print(e, serial)), closed + [LogEntry(e.boundary, Terminated(e.parts))])
  {
    hide InPart, Inv, Idle, AtLineStart, Run, Clean, BoundaryLine, ValidBoundary;
    var b, p, rest := e.boundary, e.parts[0], e.parts[1..];
    var head, text := BoundaryLine(b, p.id), p.content + "\n";
    var tail := PrintParts(b, rest) + BoundaryLine(b, 'Z');
    var s1 := Run(k, s, head);
    OpenFirst(k, s, closed, b, p.id);
    FeedContent(k, s1, closed, b, [], p.id, text, |text|);
    assert text[..|text|] == text;
    var s2 := Run(k, s1, text);
    FeedParts(k, s2, closed, b, [], p.id, text, rest);
    assert [] + [LogPart(p.id, text)] + Terminated(rest) == Terminated(e.parts);
    RunSplit(k, s, head, text + tail);
    RunSplit(k, s1, text, tail);
    var s3 := Run(k, s, head + (text + tail));
    if serial {
      EmptyLine(k, s3, closed + [LogEntry(b, Terminated(e.parts))]);
      RunSplit(k, s, head + (text + tail), "\n");
      assert Print(e, serial) == head + (text + tail) + "\n";
    } else {
      assert Print(e, serial) == head + (text + tail);
    }
  }

  lemma {:induction false} FeedEntries(k: Callback, s: State, closed: seq<LogEntry>, entries: seq<LogEntry>, serial: bool)
    requires NeverStops(k) && Idle(s, closed)
    requires forall i :: 0 <= i < |entries| ==> Printable(entries[i]) && CleanEntry(entries[i])
    ensures Idle(Run(k, s, PrintAll(entries, serial)), closed + Expected(entries))
    decreases |entries|
  {
    hide Inv, Idle, Step, Print, Printable, CleanEntry, Terminated;
    if entries != [] {
      FeedEntry(k, s, closed, entries[0], serial);
      RunSplit(k, s, Print(entries[0], serial), PrintAll(entries[1..], serial));
      var e := LogEntry(entries[0].boundary, Terminated(entries[0].parts));
      FeedEntries(k, Run(k, s, Print(entries[0], serial)), closed + [e], entries[1..], serial);
      assert closed + [e] + Expected(entries[1..]) == closed + Expected(entries);
    } else {
      assert closed + Expected(entries) == closed;
    }
  }
}
