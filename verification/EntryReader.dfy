/** The reader of audit log entries in alp2/alp2.c: it follows the events of the
    part parser with a few flags and hands every entry to its own callback. */
module EntryReader {
  import opened PartParser
  import opened Wrappers

  // What the handler of one line does: the entry so far, a fatal error, and whether the part has all its data.
  datatype Reply<S> = Reply(log: S, fatal: bool, done: bool)

  // The handlers of the parts A, B, F and H: of a line, given its number in the part, and of the end of the part.
  datatype Handlers<!S> = Handlers(blank: S, data: (S, char, nat, string) -> Reply<S>, end: (S, char) -> (S, bool))

  // An entry as it is handed on.
  datatype Verdict<S> = Verdict(log: S, error: bool)

  datatype Status<S> = Status(
    log: Option<S>,
    previous: Option<char>,
    seenH: bool,
    parseError: bool,
    counter: nat,
    dataDone: bool,
    part: char,
    delivered: seq<Verdict<S>>,
    done: bool)

  predicate Known(id: char) {
    id == 'A' || id == 'B' || id == 'F' || id == 'H'
  }

  // ---------- one event ----------

  function StartEntry<S>(h: Handlers<S>, s: Status<S>): Status<S> {
    s.(log := Some(h.blank), previous := None, seenH := false, parseError := false)
  }

  function EndEntry<S>(user: seq<Verdict<S>> -> bool, s: Status<S>): Status<S>
    requires s.log.Some?
  {
    var all := s.delivered + [Verdict(s.log.value, s.parseError || !s.seenH)];
    s.(parseError := s.parseError || !s.seenH, delivered := all, done := s.done || !user(all), log := None)
  }

  function StartPart<S>(s: Status<S>, id: char): Status<S> {
    var t := s.(part := id);
    if s.parseError then t
    else
      var fatal := s.previous == None && id != 'A';
      t.(counter := 0, dataDone := false, parseError := fatal, seenH := s.seenH || (id == 'H' && !fatal))
  }

  function PartLine<S>(h: Handlers<S>, s: Status<S>, line: string): Status<S>
    requires s.log.Some?
  {
    if s.parseError then s
    else
      var t := s.(counter := s.counter + 1);
      if s.dataDone then t.(parseError := true)
      else if Known(s.part) then
        var r := h.data(s.log.value, s.part, t.counter, line);
        t.(log := Some(r.log), parseError := r.fatal, dataDone := r.done)
      else t
  }

  function EndPart<S>(h: Handlers<S>, s: Status<S>): Status<S>
    requires s.log.Some?
  {
    if s.parseError then s
    else if Known(s.part) then
      var (log, fatal) := h.end(s.log.value, s.part);
      s.(log := Some(log), parseError := fatal, previous := Some(s.part))
    else s.(previous := Some(s.part))
  }

  // The part parser opens an entry before everything else and closes it after everything else.
  predicate Expected<S>(s: Status<S>, e: Event) {
    e.EntryStart? <==> s.log == None
  }

  function React<S>(h: Handlers<S>, user: seq<Verdict<S>> -> bool, s: Status<S>, e: Event): Status<S>
    requires Expected(s, e)
  {
    match e
    case EntryStart(_) => StartEntry(h, s)
    case EntryEnd(_) => EndEntry(user, s)
    case PartStart(p) => StartPart(s, p.id)
    case PartData(line) => PartLine(h, s, line)
    case PartEnd(_) => EndPart(h, s)
  }

  class Reader<S> {
    const handlers: Handlers<S>
    const user: seq<Verdict<S>> -> bool
    var log: Option<S>
    var previous: Option<char>
    var seenH: bool
    var parseError: bool
    var counter: nat
    var dataDone: bool
    var part: char // of the part parser
    var delivered: seq<Verdict<S>>
    var done: bool

    function Model(): Status<S>
      reads this
    {
      Status(log, previous, seenH, parseError, counter, dataDone, part, delivered, done)
    }

    constructor (handlers: Handlers<S>, user: seq<Verdict<S>> -> bool)
      ensures Model() == Status(None, None, false, false, 0, false, '\0', [], false)
      ensures this.handlers == handlers && this.user == user
    {
      this.handlers, this.user := handlers, user;
      log, previous, seenH, parseError := None, None, false, false;
      counter, dataDone, part, delivered, done := 0, false, '\0', [], false;
    }

    method HandleEntryStart()
      modifies this
      ensures Model() == StartEntry(handlers, old(Model()))
    {
      log := Some(handlers.blank);
      previous := None;
      seenH := false;
      parseError := false;
    }

    method HandleEntryEnd()
      requires log.Some?
      modifies this
      ensures Model() == EndEntry(user, old(Model()))
    {
      if !parseError {
        if !seenH {
          parseError := true;
        }
      }
      delivered := delivered + [Verdict(log.value, parseError)];
      if !user(delivered) {
        done := true;
      }
      log := None;
    }

    method HandlePartStart(id: char)
      modifies this
      ensures Model() == StartPart(old(Model()), id)
    {
      part := id;
      if parseError {
        return;
      }
      counter := 0;
      dataDone := false;
      if previous == None {
        if id != 'A' {
          parseError := true;
          return;
        }
      }
      if id == 'H' {
        seenH := true;
      }
    }

    method HandlePartData(line: string)
      requires log.Some?
      modifies this
      ensures Model() == PartLine(handlers, old(Model()), line)
    {
      if parseError {
        return;
      }
      counter := counter + 1;
      if dataDone {
        parseError := true;
        return;
      }
      if Known(part) {
        var r := handlers.data(log.value, part, counter, line);
        log := Some(r.log);
        parseError := r.fatal;
        dataDone := r.done;
      }
    }

    method HandlePartEnd()
      requires log.Some?
      modifies this
      ensures Model() == EndPart(handlers, old(Model()))
    {
      if parseError {
        return;
      }
      if Known(part) {
        var (l, fatal) := handlers.end(log.value, part);
        log := Some(l);
        parseError := fatal;
      }
      previous := Some(part);
    }

    /** What the part parser calls for every event; it stops when the result is false. */
    method Callback(e: Event) returns (goOn: bool)
      requires Expected(Model(), e)
      modifies this
      ensures Model() == React(handlers, user, old(Model()), e) && goOn == !done
    {
      match e {
      case EntryStart(_) => HandleEntryStart();
      case EntryEnd(_) => HandleEntryEnd();
      case PartStart(p) => HandlePartStart(p.id);
      case PartData(line) => HandlePartData(line);
      case PartEnd(_) => HandlePartEnd();
      }
      return !done;
    }
  }

  // ---------- whole entries ----------

  // The events of one part and of one entry, in the order of the part parser.
  datatype PartEvents = PartEvents(start: Part, lines: seq<string>, end: Part)

  datatype EntryEvents = EntryEvents(start: Entry, parts: seq<PartEvents>, end: Entry)

  function RunLines<S>(h: Handlers<S>, s: Status<S>, lines: seq<string>): (t: Status<S>)
    requires s.log.Some?
    ensures t.log.Some?
    decreases |lines|
  {
    if lines == [] then s else RunLines(h, PartLine(h, s, lines[0]), lines[1..])
  }

  function RunPart<S>(h: Handlers<S>, s: Status<S>, p: PartEvents): (t: Status<S>)
    requires s.log.Some?
    ensures t.log.Some?
  {
    EndPart(h, RunLines(h, StartPart(s, p.start.id), p.lines))
  }

  function RunParts<S>(h: Handlers<S>, s: Status<S>, parts: seq<PartEvents>): (t: Status<S>)
    requires s.log.Some?
    ensures t.log.Some?
    decreases |parts|
  {
    if parts == [] then s else RunParts(h, RunPart(h, s, parts[0]), parts[1..])
  }

  function RunEntry<S>(h: Handlers<S>, user: seq<Verdict<S>> -> bool, s: Status<S>, e: EntryEvents): Status<S> {
    EndEntry(user, RunParts(h, StartEntry(h, s), e.parts))
  }

  function RunEntries<S>(h: Handlers<S>, user: seq<Verdict<S>> -> bool, s: Status<S>, es: seq<EntryEvents>): Status<S>
    decreases |es|
  {
    if es == [] then s else RunEntries(h, user, RunEntry(h, user, s, es[0]), es[1..])
  }

  // The events of a part and of an entry in a row.
  function LineEvents(lines: seq<string>): (es: seq<Event>)
    ensures |es| == |lines|
  {
    seq(|lines|, i requires 0 <= i < |lines| => PartData(lines[i]))
  }

  function PartStream(p: PartEvents): seq<Event> {
    [PartStart(p.start)] + LineEvents(p.lines) + [PartEnd(p.end)]
  }

  function PartsStream(parts: seq<PartEvents>): seq<Event>
    decreases |parts|
  {
    if parts == [] then [] else PartStream(parts[0]) + PartsStream(parts[1..])
  }

  function EntryStream(e: EntryEvents): seq<Event> {
    [EntryStart(e.start)] + PartsStream(e.parts) + [EntryEnd(e.end)]
  }

  // One event after the other, as long as they come in the order of the part parser.
  function RunEvents<S>(h: Handlers<S>, user: seq<Verdict<S>> -> bool, s: Status<S>, events: seq<Event>): Status<S>
    decreases |events|
  {
    if events == [] || !Expected(s, events[0]) then s else RunEvents(h, user, React(h, user, s, events[0]), events[1..])
  }

  lemma {:induction false} LinesRun<S>(h: Handlers<S>, user: seq<Verdict<S>> -> bool, s: Status<S>, lines: seq<string>,
                                       more: seq<Event>)
    requires s.log.Some?
    ensures RunEvents(h, user, s, LineEvents(lines) + more) == RunEvents(h, user, RunLines(h, s, lines), more)
    decreases |lines|
  {
    if lines == [] {
      assert LineEvents(lines) + more == more;
    } else {
      var events := LineEvents(lines) + more;
      assert events[0] == PartData(lines[0]) && events[1..] == LineEvents(lines[1..]) + more;
      LinesRun(h, user, PartLine(h, s, lines[0]), lines[1..], more);
    }
  }

  lemma PartRuns<S>(h: Handlers<S>, user: seq<Verdict<S>> -> bool, s: Status<S>, p: PartEvents, more: seq<Event>)
    requires s.log.Some?
    ensures RunEvents(h, user, s, PartStream(p) + more) == RunEvents(h, user, RunPart(h, s, p), more)
  {
    hide LineEvents, PartLine, RunLines;
    var rest := [PartEnd(p.end)] + more;
    var events := PartStream(p) + more;
    assert events[0] == PartStart(p.start) && events[1..] == LineEvents(p.lines) + rest;
    var t := StartPart(s, p.start.id);
    LinesRun(h, user, t, p.lines, rest);
    assert rest[1..] == more;
  }

  lemma {:induction false} PartsRun<S>(h: Handlers<S>, user: seq<Verdict<S>> -> bool, s: Status<S>,
                                       parts: seq<PartEvents>, more: seq<Event>)
    requires s.log.Some?
    ensures RunEvents(h, user, s, PartsStream(parts) + more) == RunEvents(h, user, RunParts(h, s, parts), more)
    decreases |parts|
  {
    hide PartStream, RunPart, RunEvents;
    if parts == [] {
      assert PartsStream(parts) + more == more;
    } else {
      assert PartsStream(parts) + more == PartStream(parts[0]) + (PartsStream(parts[1..]) + more);
      PartRuns(h, user, s, parts[0], PartsStream(parts[1..]) + more);
      PartsRun(h, user, RunPart(h, s, parts[0]), parts[1..], more);
    }
  }

  /** Reacting to the events of an entry one by one is what RunEntry says. */
  lemma EntryRuns<S>(h: Handlers<S>, user: seq<Verdict<S>> -> bool, s: Status<S>, e: EntryEvents, more: seq<Event>)
    requires s.log == None
    ensures RunEvents(h, user, s, EntryStream(e) + more) == RunEvents(h, user, RunEntry(h, user, s, e), more)
  {
    hide PartsStream, RunParts;
    var events, last := EntryStream(e) + more, [EntryEnd(e.end)] + more;
    assert events[0] == EntryStart(e.start) && events[1..] == PartsStream(e.parts) + last;
    PartsRun(h, user, StartEntry(h, s), e.parts, last);
    assert last[1..] == more;
  }

  // ---------- what makes an entry acceptable ----------

  /** The lines of a part, read without flags: none may be refused, and none may follow the last one wanted. */
  function ReadLines<S>(h: Handlers<S>, log: S, id: char, lines: seq<string>, n: nat): Option<S>
    decreases |lines|
  {
    if lines == [] then Some(log)
    else if !Known(id) then ReadLines(h, log, id, lines[1..], n + 1)
    else
      var r := h.data(log, id, n + 1, lines[0]);
      if r.fatal || (r.done && |lines| > 1) then None else ReadLines(h, r.log, id, lines[1..], n + 1)
  }

  function ReadPart<S>(h: Handlers<S>, log: S, p: PartEvents): Option<S> {
    match ReadLines(h, log, p.start.id, p.lines, 0)
    case None => None
    case Some(l) =>
      if !Known(p.start.id) then Some(l)
      else
        var (r, fatal) := h.end(l, p.start.id);
        if fatal then None else Some(r)
  }

  function ReadParts<S>(h: Handlers<S>, log: S, parts: seq<PartEvents>): Option<S>
    decreases |parts|
  {
    if parts == [] then Some(log)
    else
      match ReadPart(h, log, parts[0])
      case None => None
      case Some(l) => ReadParts(h, l, parts[1..])
  }

  predicate HasPart(parts: seq<PartEvents>, id: char) {
    exists i :: 0 <= i < |parts| && parts[i].start.id == id
  }

  predicate Acceptable<S>(h: Handlers<S>, e: EntryEvents) {
    && e.parts != [] && e.parts[0].start.id == 'A' && HasPart(e.parts, 'H')
    && ReadParts(h, h.blank, e.parts).Some?
  }

  // Nothing but the flags and the content of the entry changes inside it.
  ghost predicate SameOutside<S>(s: Status<S>, t: Status<S>) {
    t.log.Some? && t.delivered == s.delivered && t.done == s.done
  }

  /** After an error the rest of the entry is skipped. */
  lemma {:induction false} LinesSkipped<S>(h: Handlers<S>, s: Status<S>, lines: seq<string>)
    requires s.log.Some? && s.parseError
    ensures RunLines(h, s, lines) == s
    decreases |lines|
  {
    if lines != [] {
      LinesSkipped(h, s, lines[1..]);
    }
  }

  lemma {:induction false} PartsSkipped<S>(h: Handlers<S>, s: Status<S>, parts: seq<PartEvents>)
    requires s.log.Some? && s.parseError
    ensures RunParts(h, s, parts).parseError && SameOutside(s, RunParts(h, s, parts))
    decreases |parts|
  {
    if parts != [] {
      LinesSkipped(h, StartPart(s, parts[0].start.id), parts[0].lines);
      PartsSkipped(h, RunPart(h, s, parts[0]), parts[1..]);
    }
  }

  /** The flags stop at the same lines as the plain reading. */
  lemma {:induction false} LinesAgree<S>(h: Handlers<S>, s: Status<S>, lines: seq<string>)
    requires s.log.Some? && !s.parseError && !(s.dataDone && lines != [])
    ensures var t := RunLines(h, s, lines);
            var r := ReadLines(h, s.log.value, s.part, lines, s.counter);
            && SameOutside(s, t) && t.part == s.part && t.previous == s.previous && t.seenH == s.seenH
            && t.parseError == (r == None) && (r.Some? ==> t.log == r)
    decreases |lines|
  {
    if lines != [] {
      var t := PartLine(h, s, lines[0]);
      if t.parseError {
        LinesSkipped(h, t, lines[1..]);
      } else if t.dataDone && |lines| > 1 {
        var u := PartLine(h, t, lines[1]);
        assert RunLines(h, t, lines[1..]) == RunLines(h, u, lines[1..][1..]);
        LinesSkipped(h, u, lines[1..][1..]);
      } else {
        LinesAgree(h, t, lines[1..]);
      }
    }
  }

  lemma PartAgrees<S>(h: Handlers<S>, s: Status<S>, p: PartEvents)
    requires s.log.Some? && !s.parseError && (s.previous == None ==> p.start.id == 'A')
    ensures var t := RunPart(h, s, p);
            var r := ReadPart(h, s.log.value, p);
            && SameOutside(s, t) && t.parseError == (r == None)
            && (r.Some? ==> t.log == r && t.previous != None && t.seenH == (s.seenH || p.start.id == 'H'))
  {
    LinesAgree(h, StartPart(s, p.start.id), p.lines);
  }

  lemma {:induction false} PartsAgree<S>(h: Handlers<S>, s: Status<S>, parts: seq<PartEvents>)
    requires s.log.Some? && !s.parseError && (s.previous == None && parts != [] ==> parts[0].start.id == 'A')
    ensures var t := RunParts(h, s, parts);
            var r := ReadParts(h, s.log.value, parts);
            && SameOutside(s, t) && t.parseError == (r == None)
            && (r.Some? ==> t.log == r && t.seenH == (s.seenH || HasPart(parts, 'H')))
    decreases |parts|
  {
    hide RunPart, ReadPart;
    if parts != [] {
      PartAgrees(h, s, parts[0]);
      var t := RunPart(h, s, parts[0]);
      HasPartCons(parts, 'H');
      if t.parseError {
        PartsSkipped(h, t, parts[1..]);
      } else {
        PartsAgree(h, t, parts[1..]);
      }
    }
  }

  lemma HasPartCons(parts: seq<PartEvents>, id: char)
    requires parts != []
    ensures HasPart(parts, id) <==> parts[0].start.id == id || HasPart(parts[1..], id)
  {
    if HasPart(parts[1..], id) {
      var i :| 0 <= i < |parts| - 1 && parts[1..][i].start.id == id;
      assert parts[i + 1].start.id == id;
    }
    if HasPart(parts, id) && parts[0].start.id != id {
      var i :| 0 <= i < |parts| && parts[i].start.id == id;
      assert parts[1..][i - 1].start.id == id;
    }
  }

  /** Every entry is handed on exactly once, and without an error exactly when it is acceptable. */
  lemma EntryVerdict<S>(h: Handlers<S>, user: seq<Verdict<S>> -> bool, s: Status<S>, e: EntryEvents)
    requires s.log == None
    ensures var t := RunEntry(h, user, s, e);
            && t.log == None && |t.delivered| == |s.delivered| + 1 && t.delivered[..|s.delivered|] == s.delivered
            && t.done == (s.done || !user(t.delivered))
            && (!t.delivered[|s.delivered|].error <==> Acceptable(h, e))
            && (Acceptable(h, e) ==> Some(t.delivered[|s.delivered|].log) == ReadParts(h, h.blank, e.parts))
  {
    var u := StartEntry(h, s);
    if e.parts != [] && e.parts[0].start.id != 'A' {
      var v := StartPart(u, e.parts[0].start.id);
      LinesSkipped(h, v, e.parts[0].lines);
      PartsSkipped(h, RunPart(h, u, e.parts[0]), e.parts[1..]);
    } else {
      PartsAgree(h, u, e.parts);
    }
  }

  /** No entry affects the verdict on another. */
  lemma {:induction false} EntriesIndependent<S>(h: Handlers<S>, user: seq<Verdict<S>> -> bool, s: Status<S>,
                                                 es: seq<EntryEvents>, i: nat)
    requires s.log == None && i < |es|
    ensures var t := RunEntries(h, user, s, es);
            && |t.delivered| == |s.delivered| + |es| && s.delivered <= t.delivered
            && (!t.delivered[|s.delivered| + i].error <==> Acceptable(h, es[i]))
    decreases |es|
  {
    hide RunEntry, Acceptable;
    var t := RunEntry(h, user, s, es[0]);
    EntryVerdict(h, user, s, es[0]);
    if |es| > 1 {
      EntriesIndependent(h, user, t, es[1..], if i == 0 then 0 else i - 1);
    } else {
      assert es[1..] == [];
    }
  }

  // ---------- which parts have handlers ----------

  /** The lines of a part that has a handler. */
  function HandledLines<S>(h: Handlers<S>, log: S, id: char, lines: seq<string>, n: nat): Option<S>
    decreases |lines|
  {
    if lines == [] then Some(log)
    else
      var r := h.data(log, id, n + 1, lines[0]);
      if r.fatal || (r.done && |lines| > 1) then None else HandledLines(h, r.log, id, lines[1..], n + 1)
  }

  function HandledPart<S>(h: Handlers<S>, log: S, p: PartEvents): Option<S> {
    match HandledLines(h, log, p.start.id, p.lines, 0)
    case None => None
    case Some(l) => var (r, fatal) := h.end(l, p.start.id); if fatal then None else Some(r)
  }

  /** Parts A, B, F and H are handled; all others are passed over. */
  function HandledParts<S>(h: Handlers<S>, log: S, parts: seq<PartEvents>): Option<S>
    decreases |parts|
  {
    if parts == [] then Some(log)
    else
      var read :=
        match parts[0].start.id
        case 'A' => HandledPart(h, log, parts[0])
        case 'B' => HandledPart(h, log, parts[0])
        case 'F' => HandledPart(h, log, parts[0])
        case 'H' => HandledPart(h, log, parts[0])
        case _ => Some(log);
      match read
      case None => None
      case Some(l) => HandledParts(h, l, parts[1..])
  }

  lemma {:induction false} LinesHandled<S>(h: Handlers<S>, log: S, id: char, lines: seq<string>, n: nat)
    ensures ReadLines(h, log, id, lines, n) == if Known(id) then HandledLines(h, log, id, lines, n) else Some(log)
    decreases |lines|
  {
    if lines != [] {
      if Known(id) {
        LinesHandled(h, h.data(log, id, n + 1, lines[0]).log, id, lines[1..], n + 1);
      } else {
        LinesHandled(h, log, id, lines[1..], n + 1);
      }
    }
  }

  lemma {:induction false} PartsHandled<S>(h: Handlers<S>, log: S, parts: seq<PartEvents>)
    ensures ReadParts(h, log, parts) == HandledParts(h, log, parts)
    decreases |parts|
  {
    if parts != [] {
      var p := parts[0];
      LinesHandled(h, log, p.start.id, p.lines, 0);
      var read := ReadPart(h, log, p);
      if read.Some? { PartsHandled(h, read.value, parts[1..]); }
    }
  }

  /** What makes an entry acceptable, with the letters spelled out. */
  lemma AcceptableExact<S>(h: Handlers<S>, e: EntryEvents)
    ensures Acceptable(h, e) <==>
      && |e.parts| > 0 && e.parts[0].start.id == 'A'
      && (exists i :: 0 <= i < |e.parts| && e.parts[i].start.id == 'H')
      && HandledParts(h, h.blank, e.parts).Some?
  {
    PartsHandled(h, h.blank, e.parts);
  }

  // The handlers h, except that the first line of a part c is refused.
  function RefuseLine<S>(h: Handlers<S>, c: char): Handlers<S> {
    Handlers(h.blank,
             (log: S, id: char, n: nat, line: string) =>
               if id == c && n == 1 then Reply(log, true, false) else h.data(log, id, n, line),
             h.end)
  }

  // The handlers h, except that the end of a part c is refused.
  function RefuseEnd<S>(h: Handlers<S>, c: char): Handlers<S> {
    Handlers(h.blank, h.data, (log, id) => if id == c then (log, true) else h.end(log, id))
  }

  predicate HasLines(parts: seq<PartEvents>, c: char) {
    exists i :: 0 <= i < |parts| && parts[i].start.id == c && parts[i].lines != []
  }

  lemma HasLinesCons(parts: seq<PartEvents>, c: char)
    requires parts != []
    ensures HasLines(parts, c) <==> (parts[0].start.id == c && parts[0].lines != []) || HasLines(parts[1..], c)
  {
    if HasLines(parts[1..], c) {
      var i :| 0 <= i < |parts| - 1 && parts[1..][i].start.id == c && parts[1..][i].lines != [];
      assert parts[i + 1].start.id == c;
    }
    if HasLines(parts, c) && !(parts[0].start.id == c && parts[0].lines != []) {
      var i :| 0 <= i < |parts| && parts[i].start.id == c && parts[i].lines != [];
      assert parts[1..][i - 1].start.id == c;
    }
  }

  lemma {:induction false} OtherLines<S>(h: Handlers<S>, c: char, log: S, id: char, lines: seq<string>, n: nat)
    requires id != c || n > 0 || lines == []
    ensures HandledLines(RefuseLine(h, c), log, id, lines, n) == HandledLines(h, log, id, lines, n)
    decreases |lines|
  {
    if lines != [] {
      OtherLines(h, c, h.data(log, id, n + 1, lines[0]).log, id, lines[1..], n + 1);
    }
  }

  lemma {:induction false} LineRefused<S>(h: Handlers<S>, c: char, log: S, parts: seq<PartEvents>)
    requires c == 'A' || c == 'B' || c == 'F' || c == 'H'
    ensures HandledParts(RefuseLine(h, c), log, parts) == if HasLines(parts, c) then None else HandledParts(h, log, parts)
    decreases |parts|
  {
    hide HasLines;
    if parts != [] {
      var p := parts[0];
      HasLinesCons(parts, c);
      if p.start.id != c || p.lines == [] {
        OtherLines(h, c, log, p.start.id, p.lines, 0);
        var read := HandledPart(h, log, p);
        LineRefused(h, c, log, parts[1..]);
        if read.Some? { LineRefused(h, c, read.value, parts[1..]); }
      }
    } else {
      assert !HasLines(parts, c) by { NoLines(c); }
    }
  }

  lemma NoLines(c: char)
    ensures !HasLines([], c)
  {
  }

  lemma {:induction false} EndRefused<S>(h: Handlers<S>, c: char, log: S, parts: seq<PartEvents>)
    requires c == 'A' || c == 'B' || c == 'F' || c == 'H'
    ensures HandledParts(RefuseEnd(h, c), log, parts) == if HasPart(parts, c) then None else HandledParts(h, log, parts)
    decreases |parts|
  {
    hide HasPart;
    if parts != [] {
      var p := parts[0];
      HasPartCons(parts, c);
      SameLines(h, c, log, p.start.id, p.lines, 0);
      if p.start.id != c {
        var read := HandledPart(h, log, p);
        EndRefused(h, c, log, parts[1..]);
        if read.Some? { EndRefused(h, c, read.value, parts[1..]); }
      }
    } else {
      assert !HasPart(parts, c) by { NoParts(c); }
    }
  }

  lemma NoParts(c: char)
    ensures !HasPart([], c)
  {
  }

  lemma {:induction false} SameLines<S>(h: Handlers<S>, c: char, log: S, id: char, lines: seq<string>, n: nat)
    ensures HandledLines(RefuseEnd(h, c), log, id, lines, n) == HandledLines(h, log, id, lines, n)
    decreases |lines|
  {
    if lines != [] {
      SameLines(h, c, h.data(log, id, n + 1, lines[0]).log, id, lines[1..], n + 1);
    }
  }

  /** Handlers that agree on the parts A, B, F and H cannot be told apart: for any other part neither is consulted. */
  lemma {:induction false} OthersPassedOver<S>(h: Handlers<S>, g: Handlers<S>, log: S, parts: seq<PartEvents>)
    requires forall l, id, n: nat, line :: id == 'A' || id == 'B' || id == 'F' || id == 'H' ==>
               h.data(l, id, n, line) == g.data(l, id, n, line)
    requires forall l, id :: id == 'A' || id == 'B' || id == 'F' || id == 'H' ==> h.end(l, id) == g.end(l, id)
    ensures HandledParts(h, log, parts) == HandledParts(g, log, parts)
    decreases |parts|
  {
    if parts != [] {
      var p := parts[0];
      var id := p.start.id;
      if id == 'A' || id == 'B' || id == 'F' || id == 'H' {
        LinesAlike(h, g, log, id, p.lines, 0);
        var read := HandledPart(h, log, p);
        if read.Some? { OthersPassedOver(h, g, read.value, parts[1..]); }
      } else {
        OthersPassedOver(h, g, log, parts[1..]);
      }
    }
  }

  lemma {:induction false} LinesAlike<S>(h: Handlers<S>, g: Handlers<S>, log: S, id: char, lines: seq<string>, n: nat)
    requires forall l, n: nat, line :: h.data(l, id, n, line) == g.data(l, id, n, line)
    ensures HandledLines(h, log, id, lines, n) == HandledLines(g, log, id, lines, n)
    decreases |lines|
  {
    if lines != [] {
      LinesAlike(h, g, h.data(log, id, n + 1, lines[0]).log, id, lines[1..], n + 1);
    }
  }

  /** Refusing the first line, or the end, of parts with the letter c spoils
      exactly the entries that have such a part (for a line, one with a line), if
      c is A, B, F or H; for any other letter it makes no difference. */
  lemma RefusalsExact<S>(h: Handlers<S>, e: EntryEvents, c: char)
    ensures Acceptable(RefuseLine(h, c), e) <==>
      Acceptable(h, e) && !((c == 'A' || c == 'B' || c == 'F' || c == 'H') && HasLines(e.parts, c))
    ensures Acceptable(RefuseEnd(h, c), e) <==>
      Acceptable(h, e) && !((c == 'A' || c == 'B' || c == 'F' || c == 'H')
                            && exists i :: 0 <= i < |e.parts| && e.parts[i].start.id == c)
  {
    hide HandledParts, HasLines;
    AcceptableExact(h, e);
    AcceptableExact(RefuseLine(h, c), e);
    AcceptableExact(RefuseEnd(h, c), e);
    if c == 'A' || c == 'B' || c == 'F' || c == 'H' {
      LineRefused(h, c, h.blank, e.parts);
      EndRefused(h, c, h.blank, e.parts);
    } else {
      OthersPassedOver(RefuseLine(h, c), h, h.blank, e.parts);
      OthersPassedOver(RefuseEnd(h, c), h, h.blank, e.parts);
    }
  }
}
