/** Printing audit-log entries and parsing them back: exactly when the entries return. */
module AuditLogRoundTrip {
  import opened Wrappers
  import opened Sequences
  import opened PartParser
  import opened AuditLog

  // Entry n has, or will have, a part list that begins with `parts`.
  ghost predicate Pinned(s: State, n: nat, parts: seq<LogPart>) {
    var c := Collect(s.events);
    || (|c.closed| == n && s.entry != None && parts <= c.parts)
    || (|c.closed| > n && parts <= c.closed[n].parts)
  }

  lemma PinnedData(k: Callback, s: State, n: nat, parts: seq<LogPart>)
    requires Pinned(s, n, parts)
    ensures Pinned(Data(k, s), n, parts)
  {
    hide Collect;
    if s.part != None { DataCollects(k, s); }
  }

  lemma PinnedClose(k: Callback, s: State, n: nat, parts: seq<LogPart>, id: char)
    requires Pinned(s, n, parts)
    ensures Pinned(ClosePart(k, s, id), n, parts)
  {
    hide Collect;
    if s.part != None && s.entry != None { CloseCollects(k, s, id); }
  }

  lemma PinnedOpen(k: Callback, s: State, n: nat, parts: seq<LogPart>, b: string, id: char)
    requires Pinned(s, n, parts)
    ensures Pinned(OpenPart(k, s, b, id), n, parts)
  {
    hide Collect;
    if id != 'Z' {
      var t := s;
      if s.entry == None {
        var e := Entry(s.lineOffset, b, [], 0);
        CollectEmit(k, s.(entry := Some(e)), EntryStart(e));
        t := Emit(k, s.(entry := Some(e)), EntryStart(e));
      }
      var p := Part(id, t.offset, 0);
      CollectEmit(k, t.(part := Some(p)), PartStart(p));
    }
  }

  lemma PinnedStep(k: Callback, s: State, n: nat, parts: seq<LogPart>, c: char)
    requires Pinned(s, n, parts)
    ensures Pinned(Step(k, s, c), n, parts)
  {
    hide Collect, Data, ClosePart, OpenPart, ParseBoundary;
    PinnedData(k, s, n, parts);
    var r := Room(k, s);
    assert Pinned(r, n, parts);
    var t := r.(line := r.line + [c], offset := r.offset + 1);
    assert Pinned(t, n, parts);
    var m := Recognised(t);
    PinnedData(k, t, n, parts);
    if m != None {
      PinnedClose(k, t, n, parts, m.value.1);
      PinnedOpen(k, ClosePart(k, t, m.value.1), n, parts, m.value.0, m.value.1);
    }
    assert Pinned(EndLine(k, t), n, parts);
  }

  lemma {:induction false} PinnedRun(k: Callback, s: State, n: nat, parts: seq<LogPart>, input: string)
    requires Pinned(s, n, parts)
    ensures Pinned(Run(k, s, input), n, parts)
    decreases |input|
  {
    hide Pinned, Step;
    if input != "" {
      PinnedRun(k, s, n, parts, input[..|input| - 1]);
      PinnedStep(k, Run(k, s, input[..|input| - 1]), n, parts, input[|input| - 1]);
    }
  }

  // The byte at n ends a boundary line in t.
  ghost predicate EndsBoundary(b: string, t: string, n: nat) {
    n < |t| && IsBoundaryOf(b, t[LineStart(t[..n])..n + 1])
  }

  /** Where the first boundary line inside t ends. */
  lemma {:induction false} FirstUnclean(b: string, t: string) returns (n: nat)
    requires !Clean(b, t)
    ensures n < |t| && Clean(b, t[..n]) && EndsBoundary(b, t, n)
    decreases |t|
  {
    hide Clean, EndsBoundary;
    NothingClean(b);
    var u := t[..|t| - 1];
    if Clean(b, u) {
      n := |t| - 1;
      CleanLonger(b, t);
    } else {
      n := FirstUnclean(b, u);
      assert u[..n] == t[..n];
      SameEnds(b, t, n);
    }
  }

  lemma NothingClean(b: string)
    ensures Clean(b, "")
  {
  }

  lemma SameEnds(b: string, t: string, n: nat)
    requires n + 1 < |t|
    ensures EndsBoundary(b, t, n) <==> EndsBoundary(b, t[..|t| - 1], n)
  {
    hide LineStart, IsBoundaryOf;
    var u := t[..|t| - 1];
    assert u[..n] == t[..n];
    assert t[LineStart(t[..n])..n + 1] == u[LineStart(u[..n])..n + 1];
  }

  /** A text is clean when it is clean but for its last byte and that does not end a boundary line. */
  lemma CleanLonger(b: string, t: string)
    requires t != "" && Clean(b, t[..|t| - 1])
    ensures !Clean(b, t) ==> EndsBoundary(b, t, |t| - 1)
  {
    hide LineStart, IsBoundaryOf;
    forall j | 0 <= j < |t| - 1 ensures !EndsBoundary(b, t, j) {
      SameEnds(b, t, j);
    }
    if !EndsBoundary(b, t, |t| - 1) {
      forall j | 0 <= j < |t| ensures !IsBoundaryOf(b, t[LineStart(t[..j])..j + 1]) {
        assert !EndsBoundary(b, t, j);
      }
    }
  }

  /** A boundary line inside the content of a part ends the part there. */
  lemma BoundaryByte(k: Callback, s: State, closed: seq<LogEntry>, b: string, parts: seq<LogPart>,
                     id: char, acc: string, c: char)
    requires InPart(s, closed, b, parts, id, acc)
    requires |b| + 7 <= MAX_LINE && ValidBoundary(b)
    requires IsBoundaryOf(b, acc[LineStart(acc)..] + [c])
    ensures Pinned(Step(k, s, c), |closed|, parts + [LogPart(id, acc[..LineStart(acc)])])
  {
    hide LineStart, Collect, ParseBoundary, ClosePart, OpenPart, Data;
    var p := LineStart(acc);
    var line := acc[p..] + [c];
    var x := line[|b| + 3];
    assert s.hasStart && s.line == acc[p..];
    assert Collect(s.events).content == acc[..p];
    ParseBoundaryExact(line, b, x);
    BoundaryLineEnd(b, x);
    assert c == '\n';
    var t := s.(line := line, offset := s.offset + 1);
    assert Recognised(t) == Some((b, x));
    var u := ClosePart(k, t, x);
    CloseCollects(k, t, x);
    assert Pinned(u, |closed|, parts + [LogPart(id, acc[..p])]) by {
      CloseKeepsEntry(k, t, x);
    }
    PinnedOpen(k, u, |closed|, parts + [LogPart(id, acc[..p])], b, x);
  }

  lemma CloseKeepsEntry(k: Callback, s: State, id: char)
    requires s.part != None && s.entry != None
    ensures id != 'Z' ==> ClosePart(k, s, id).entry != None
  {
  }

  lemma BreaksContent(k: Callback, s: State, closed: seq<LogEntry>, b: string, parts: seq<LogPart>,
                      id: char, t: string, more: string)
    returns (p: nat)
    requires NeverStops(k) && InPart(s, closed, b, parts, id, "")
    requires |b| + 7 <= MAX_LINE && ValidBoundary(b) && !Clean(b, t)
    ensures p < |t| && Pinned(Run(k, s, t + more), |closed|, parts + [LogPart(id, t[..p])])
  {
    hide InPart, Step, Run, Pinned, Clean, IsBoundaryOf, LineStart;
    var n := FirstUnclean(b, t);
    var u := t[..n];
    FeedContent(k, s, closed, b, parts, id, u, n);
    p := LineStart(u);
    CutAt(t, n, p, more);
    BoundaryByte(k, Run(k, s, u), closed, b, parts, id, u, t[n]);
    RunNext(k, s, t, n);
    RunSplit(k, s, t[..n + 1], t[n + 1..] + more);
    PinnedRun(k, Run(k, s, t[..n + 1]), |closed|, parts + [LogPart(id, t[..p])], t[n + 1..] + more);
  }

  lemma CutAt(t: string, n: nat, p: nat, more: string)
    requires p <= n < |t|
    ensures t[..n][..n] == t[..n] && t[..n][..p] == t[..p] && t[..n][p..] + [t[n]] == t[p..n + 1]
    ensures t + more == t[..n + 1] + (t[n + 1..] + more)
  {
  }

  // The reader has settled on something other than `all` for entry n.
  ghost predicate Misread(s: State, n: nat, all: seq<LogPart>) {
    exists parts :: Pinned(s, n, parts) && !(parts <= all)
  }

  lemma BreaksFirst(k: Callback, s: State, closed: seq<LogEntry>, b: string, done: seq<LogPart>,
                    parts: seq<LogPart>, more: string)
    requires NeverStops(k) && Printable(LogEntry(b, parts))
    requires InPart(s, closed, b, done, parts[0].id, "") && !Clean(b, parts[0].content + "\n")
    ensures Misread(Run(k, s, parts[0].content + "\n" + more), |closed|, done + Terminated(parts))
  {
    hide InPart, Run, Pinned, Clean, ValidBoundary;
    var t, all := parts[0].content + "\n", done + Terminated(parts);
    var p := BreaksContent(k, s, closed, b, done, parts[0].id, t, more);
    var wrong := done + [LogPart(parts[0].id, t[..p])];
    assert all[|done|] == LogPart(parts[0].id, t) && wrong[|done|] == LogPart(parts[0].id, t[..p]);
    assert !(wrong <= all);
  }

  lemma PrintPartsCons(b: string, parts: seq<LogPart>)
    requires parts != []
    ensures PrintParts(b, parts) == BoundaryLine(b, parts[0].id) + (parts[0].content + "\n" + PrintParts(b, parts[1..]))
  {
  }

  lemma {:induction false} BreaksParts(k: Callback, s: State, closed: seq<LogEntry>, b: string, done: seq<LogPart>,
                                       parts: seq<LogPart>, more: string)
    requires NeverStops(k) && Printable(LogEntry(b, parts)) && !CleanEntry(LogEntry(b, parts))
    requires AtLineStart(s) && InPart(s, closed, b, done, parts[0].id, "")
    ensures Misread(Run(k, s, parts[0].content + "\n" + PrintParts(b, parts[1..]) + more), |closed|,
                    done + Terminated(parts))
    decreases |parts|
  {
    hide InPart, AtLineStart, Run, Clean, ValidBoundary, BoundaryLine, Misread, PrintParts, Terminated, CleanEntry;
    var p0, rest := parts[0], parts[1..];
    var t := p0.content + "\n";
    if !Clean(b, t) {
      BreaksFirst(k, s, closed, b, done, parts, PrintParts(b, rest) + more);
      assert t + PrintParts(b, rest) + more == t + (PrintParts(b, rest) + more);
    } else {
      RestBreaks(b, parts);
      FeedContent(k, s, closed, b, done, p0.id, t, |t|);
      assert t[..|t|] == t;
      var s1 := Run(k, s, t);
      var head := BoundaryLine(b, rest[0].id);
      OpenNext(k, s1, closed, b, done, p0.id, t, rest[0].id);
      var tail := rest[0].content + "\n" + PrintParts(b, rest[1..]) + more;
      BreaksParts(k, Run(k, s1, head), closed, b, done + [LogPart(p0.id, t)], rest, more);
      TerminatedCons(done, parts);
      RunSplit(k, s, t, head + tail);
      RunSplit(k, s1, head, tail);
      PrintPartsNext(b, t, rest, more);
    }
  }

  /** A clean first part leaves the unclean one to the others. */
  lemma RestBreaks(b: string, parts: seq<LogPart>)
    requires Printable(LogEntry(b, parts)) && !CleanEntry(LogEntry(b, parts)) && Clean(b, parts[0].content + "\n")
    ensures parts[1..] != [] && Printable(LogEntry(b, parts[1..])) && !CleanEntry(LogEntry(b, parts[1..]))
    ensures ValidBoundary(b) && |b| + 7 <= MAX_LINE && 'A' <= parts[1].id < 'Z'
  {
    hide Clean, ValidBoundary;
    var i :| 0 <= i < |parts| && !Clean(b, parts[i].content + "\n");
    assert parts[1..][i - 1] == parts[i];
  }

  lemma TerminatedCons(done: seq<LogPart>, parts: seq<LogPart>)
    requires parts != []
    ensures done + [LogPart(parts[0].id, parts[0].content + "\n")] + Terminated(parts[1..]) == done + Terminated(parts)
  {
  }

  lemma PrintPartsNext(b: string, t: string, rest: seq<LogPart>, more: string)
    requires rest != []
    ensures t + PrintParts(b, rest) + more
         == t + (BoundaryLine(b, rest[0].id) + (rest[0].content + "\n" + PrintParts(b, rest[1..]) + more))
  {
    hide PrintParts, BoundaryLine;
    PrintPartsCons(b, rest);
    var head, text, last := BoundaryLine(b, rest[0].id), rest[0].content + "\n", PrintParts(b, rest[1..]);
    assert t + (head + (text + last)) + more == t + (head + (text + last + more));
  }

  lemma BreaksEntry(k: Callback, s: State, closed: seq<LogEntry>, e: LogEntry, serial: bool, more: string)
    requires NeverStops(k) && Idle(s, closed) && Printable(e) && !CleanEntry(e)
    ensures Misread(Run(k, s, Print(e, serial) + more), |closed|, Terminated(e.parts))
  {
    hide InPart, Idle, AtLineStart, Run, Misread, CleanEntry, BoundaryLine;
    var b, p0 := e.boundary, e.parts[0];
    var head := BoundaryLine(b, p0.id);
    var foot := BoundaryLine(b, 'Z') + (if serial then "\n" else "") + more;
    OpenFirst(k, s, closed, b, p0.id);
    BreaksParts(k, Run(k, s, head), closed, b, [], e.parts, foot);
    var tail := p0.content + "\n" + PrintParts(b, e.parts[1..]) + foot;
    RunSplit(k, s, head, tail);
    assert Print(e, serial) + more == head + tail;
    assert [] + Terminated(e.parts) == Terminated(e.parts);
  }

  lemma {:induction false} BreaksEntries(k: Callback, s: State, closed: seq<LogEntry>, entries: seq<LogEntry>, serial: bool)
    requires NeverStops(k) && Idle(s, closed)
    requires forall i :: 0 <= i < |entries| ==> Printable(entries[i])
    requires exists i :: 0 <= i < |entries| && !CleanEntry(entries[i])
    ensures Collect(Run(k, s, PrintAll(entries, serial)).events).closed != closed + Expected(entries)
    decreases |entries|
  {
    hide Idle, Run, CleanEntry, Print, Printable, Collect, Pinned;
    var e, rest := entries[0], PrintAll(entries[1..], serial);
    var all := closed + Expected(entries);
    if !CleanEntry(e) {
      BreaksEntry(k, s, closed, e, serial, rest);
      var f := Run(k, s, Print(e, serial) + rest);
      MisreadDiffers(f, |closed|, all);
    } else {
      FeedEntry(k, s, closed, e, serial);
      RunSplit(k, s, Print(e, serial), rest);
      var got := LogEntry(e.boundary, Terminated(e.parts));
      var i :| 0 <= i < |entries| && !CleanEntry(entries[i]);
      assert entries[1..][i - 1] == entries[i];
      BreaksEntries(k, Run(k, s, Print(e, serial)), closed + [got], entries[1..], serial);
      assert closed + [got] + Expected(entries[1..]) == all;
    }
  }

  lemma MisreadDiffers(s: State, n: nat, all: seq<LogEntry>)
    requires n < |all| && Misread(s, n, all[n].parts)
    ensures Collect(s.events).closed != all
  {
    hide Collect;
  }

  /** Any entries the logger can frame, printed one behind the other and fed to
      the parser in any chunking, are read back exactly (same boundaries, same
      part letters, each part's content plus the line break behind it) if and
      only if no line of any part's content is a boundary line of its entry. */
  lemma RoundTrip(k: Callback, entries: seq<LogEntry>, serial: bool, chunks: seq<string>)
    requires NeverStops(k)
    requires forall i :: 0 <= i < |entries| ==> Printable(entries[i])
    requires Flatten(chunks) == PrintAll(entries, serial)
    ensures Collect(RunAll(k, Init, chunks).events).closed == Expected(entries)
       <==> forall i :: 0 <= i < |entries| ==> CleanEntry(entries[i])
  {
    hide CleanEntry, Printable, Run, Idle, Collect;
    ChunkingIrrelevant(k, Init, chunks);
    StartsIdle();
    assert [] + Expected(entries) == Expected(entries);
    if forall i :: 0 <= i < |entries| ==> CleanEntry(entries[i]) {
      FeedEntries(k, Init, [], entries, serial);
      IdleClosed(Run(k, Init, PrintAll(entries, serial)), [] + Expected(entries));
    } else {
      BreaksEntries(k, Init, [], entries, serial);
    }
  }

  lemma StartsIdle()
    ensures Idle(Init, [])
  {
  }

  lemma IdleClosed(s: State, closed: seq<LogEntry>)
    requires Idle(s, closed)
    ensures Collect(s.events).closed == closed
  {
  }
}
