/** The entry reader of alp2/alp2.c on top of the part parser of alp2/alp2_pp.c:
    from the bytes of a stream to the verdicts on its entries. */
module EntryPipeline {
  import opened Wrappers
  import opened PartParser
  import Safety = PartParserSafety
  import opened EntryReader

  // ---------- events grouped by entries ----------

  // An entry whose end has not been seen: its parts, and the part that is open with its lines.
  datatype OpenEntry = OpenEntry(start: Entry, parts: seq<PartEvents>, part: Option<Part>, lines: seq<string>)

  datatype Progress = Progress(complete: seq<EntryEvents>, current: Option<OpenEntry>)

  function StreamOf(entries: seq<EntryEvents>): seq<Event>
    decreases |entries|
  {
    if entries == [] then [] else EntryStream(entries[0]) + StreamOf(entries[1..])
  }

  function OpenStream(o: OpenEntry): seq<Event> {
    [EntryStart(o.start)] + PartsStream(o.parts)
    + (if o.part == None then [] else [PartStart(o.part.value)] + LineEvents(o.lines))
  }

  function EventsOf(p: Progress): seq<Event> {
    StreamOf(p.complete) + (if p.current == None then [] else OpenStream(p.current.value))
  }

  /** One more event. */
  function Advance(p: Progress, e: Event): Progress {
    match e
    case EntryStart(n) => p.(current := Some(OpenEntry(n, [], None, [])))
    case PartStart(n) => if p.current == None then p else p.(current := Some(p.current.value.(part := Some(n), lines := [])))
    case PartData(d) => if p.current == None then p else p.(current := Some(p.current.value.(lines := p.current.value.lines + [d])))
    case PartEnd(n) =>
      if p.current == None || p.current.value.part == None then p
      else
        var o := p.current.value;
        p.(current := Some(OpenEntry(o.start, o.parts + [PartEvents(o.part.value, o.lines, n)], None, [])))
    case EntryEnd(n) =>
      if p.current == None then p
      else Progress(p.complete + [EntryEvents(p.current.value.start, p.current.value.parts, n)], None)
  }

  function ProgressOf(events: seq<Event>): Progress {
    if events == [] then Progress([], None)
    else Advance(ProgressOf(events[..|events| - 1]), events[|events| - 1])
  }

  function Ends(parts: seq<PartEvents>): (ps: seq<Part>)
    ensures |ps| == |parts| && forall i :: 0 <= i < |ps| ==> ps[i] == parts[i].end
  {
    seq(|parts|, i requires 0 <= i < |parts| => parts[i].end)
  }

  // The groups say what a reader of the events knows.
  ghost predicate Agrees(at: Safety.Phase, p: Progress) {
    && (forall i :: 0 <= i < |p.complete| ==> p.complete[i].parts != [] && p.complete[i].end.parts == Ends(p.complete[i].parts))
    && match at
       case Broken => false
       case Outside(_) => p.current == None
       case Between(o, _, ps, n) =>
         && p.current != None && p.current.value.part == None && ps == Ends(p.current.value.parts)
         && (p.current.value.parts == [] ==> n == o)
       case Reading(_, _, ps, _, _) => p.current != None && p.current.value.part != None && ps == Ends(p.current.value.parts)
  }

  lemma {:induction false} PartsStreamSnoc(parts: seq<PartEvents>, p: PartEvents)
    ensures PartsStream(parts + [p]) == PartsStream(parts) + PartStream(p)
    decreases |parts|
  {
    hide PartStream;
    if parts == [] {
      assert parts + [p] == [p];
      assert PartsStream([]) == [] && [p][1..] == [];
    } else {
      assert (parts + [p])[1..] == parts[1..] + [p];
      PartsStreamSnoc(parts[1..], p);
    }
  }

  lemma {:induction false} StreamOfSnoc(entries: seq<EntryEvents>, e: EntryEvents)
    ensures StreamOf(entries + [e]) == StreamOf(entries) + EntryStream(e)
    decreases |entries|
  {
    hide EntryStream;
    if entries == [] {
      assert entries + [e] == [e];
      assert StreamOf([]) == [] && [e][1..] == [];
    } else {
      assert (entries + [e])[1..] == entries[1..] + [e];
      StreamOfSnoc(entries[1..], e);
    }
  }

  /** The groups hold exactly the events, in their order. */
  lemma AdvanceKeeps(stream: string, at: Safety.Phase, p: Progress, e: Event)
    requires Agrees(at, p) && Safety.Next(stream, at, e) != Safety.Broken
    ensures Agrees(Safety.Next(stream, at, e), Advance(p, e))
    ensures EventsOf(Advance(p, e)) == EventsOf(p) + [e]
  {
    hide EventsOf;
    AdvanceEvents(stream, at, p, e);
  }

  lemma AdvanceEvents(stream: string, at: Safety.Phase, p: Progress, e: Event)
    requires Agrees(at, p) && Safety.Next(stream, at, e) != Safety.Broken
    ensures EventsOf(Advance(p, e)) == EventsOf(p) + [e]
  {
    hide Safety.Slice, BoundaryLine, PartsStream, StreamOf, Ends;
    match e
    case EntryStart(n) =>
      NoParts();
    case PartStart(n) =>
      assert LineEvents([]) == [];
    case PartData(d) =>
      var o := p.current.value;
      assert LineEvents(o.lines + [d]) == LineEvents(o.lines) + [PartData(d)];
    case PartEnd(n) =>
      PartEndEvents(p, n);
    case EntryEnd(n) =>
      EntryEndEvents(p, n);
  }

  lemma PartEndEvents(p: Progress, n: Part)
    requires p.current != None && p.current.value.part != None
    ensures EventsOf(Advance(p, PartEnd(n))) == EventsOf(p) + [PartEnd(n)]
  {
    hide PartsStream, StreamOf, LineEvents;
    var o := p.current.value;
    var e := PartEvents(o.part.value, o.lines, n);
    PartsStreamSnoc(o.parts, e);
    var open, lines := [PartStart(o.part.value)], LineEvents(o.lines);
    assert PartStream(e) == open + lines + [PartEnd(n)];
    Nested(StreamOf(p.complete), [EntryStart(o.start)], PartsStream(o.parts), open + lines, [PartEnd(n)]);
  }

  lemma EntryEndEvents(p: Progress, n: Entry)
    requires p.current != None && p.current.value.part == None
    ensures EventsOf(Advance(p, EntryEnd(n))) == EventsOf(p) + [EntryEnd(n)]
  {
    hide PartsStream, StreamOf;
    var o := p.current.value;
    StreamOfSnoc(p.complete, EntryEvents(o.start, o.parts, n));
    Nested(StreamOf(p.complete), [EntryStart(o.start)], PartsStream(o.parts), [], [EntryEnd(n)]);
  }

  lemma Nested<T>(a: seq<T>, b: seq<T>, c: seq<T>, d: seq<T>, e: seq<T>)
    ensures a + (b + (c + (d + e)) + []) == a + (b + c + d) + e
    ensures a + (b + c + e) + [] == a + (b + c + []) + e
  {
  }

  lemma NoParts()
    ensures PartsStream([]) == []
  {
  }

  lemma {:induction false} EventsGrouped(stream: string, events: seq<Event>)
    requires Safety.Replay(stream, events) != Safety.Broken
    ensures Agrees(Safety.Replay(stream, events), ProgressOf(events)) && EventsOf(ProgressOf(events)) == events
    decreases |events|
  {
    hide Agrees, Advance, EventsOf;
    if events == [] {
      assert Agrees(Safety.Outside(0), Progress([], None)) && EventsOf(Progress([], None)) == [] by { NothingGrouped(); }
    } else {
      var before, e := events[..|events| - 1], events[|events| - 1];
      EventsGrouped(stream, before);
      AdvanceKeeps(stream, Safety.Replay(stream, before), ProgressOf(before), e);
      assert before + [e] == events;
    }
  }

  lemma NothingGrouped()
    ensures Agrees(Safety.Outside(0), Progress([], None)) && EventsOf(Progress([], None)) == []
  {
  }

  // ---------- verdicts ----------

  lemma {:induction false} EntriesRun<S>(h: Handlers<S>, user: seq<Verdict<S>> -> bool, s: Status<S>,
                                         entries: seq<EntryEvents>, more: seq<Event>)
    requires s.log == None
    ensures RunEvents(h, user, s, StreamOf(entries) + more) == RunEvents(h, user, RunEntries(h, user, s, entries), more)
    ensures RunEntries(h, user, s, entries).log == None
    decreases |entries|
  {
    hide EntryStream, RunEntry, RunEvents, Acceptable;
    if entries == [] {
      assert StreamOf(entries) + more == more;
    } else {
      var rest := StreamOf(entries[1..]) + more;
      assert StreamOf(entries) + more == EntryStream(entries[0]) + rest;
      EntryRuns(h, user, s, entries[0], rest);
      EntryVerdict(h, user, s, entries[0]);
      EntriesRun(h, user, RunEntry(h, user, s, entries[0]), entries[1..], more);
    }
  }

  lemma {:induction false} LinesOutside<S>(h: Handlers<S>, s: Status<S>, lines: seq<string>)
    requires s.log.Some?
    ensures SameOutside(s, RunLines(h, s, lines))
    decreases |lines|
  {
    if lines != [] {
      LinesOutside(h, PartLine(h, s, lines[0]), lines[1..]);
    }
  }

  lemma {:induction false} PartsOutside<S>(h: Handlers<S>, s: Status<S>, parts: seq<PartEvents>)
    requires s.log.Some?
    ensures SameOutside(s, RunParts(h, s, parts))
    decreases |parts|
  {
    if parts != [] {
      LinesOutside(h, StartPart(s, parts[0].start.id), parts[0].lines);
      PartsOutside(h, RunPart(h, s, parts[0]), parts[1..]);
    }
  }

  /** An entry is not handed on before its end. */
  lemma OpenWithholds<S>(h: Handlers<S>, user: seq<Verdict<S>> -> bool, s: Status<S>, o: OpenEntry)
    requires s.log == None
    ensures SameOutside(s, RunEvents(h, user, s, OpenStream(o)))
  {
    hide PartsStream, LineEvents, RunLines, RunParts, PartLine;
    var u := StartEntry(h, s);
    var tail := if o.part == None then [] else [PartStart(o.part.value)] + LineEvents(o.lines);
    assert OpenStream(o)[0] == EntryStart(o.start) && OpenStream(o)[1..] == PartsStream(o.parts) + tail;
    PartsRun(h, user, u, o.parts, tail);
    PartsOutside(h, u, o.parts);
    var v := RunParts(h, u, o.parts);
    if o.part != None {
      assert tail[1..] == LineEvents(o.lines) + [];
      var w := StartPart(v, o.part.value.id);
      LinesRun(h, user, w, o.lines, []);
      LinesOutside(h, w, o.lines);
    }
  }

  function Idle<S>(): Status<S> {
    Status(None, None, false, false, 0, false, '\0', [], false)
  }

  /** The part parser's callback: the reader, which asks to stop when its own callback has. */
  function ReaderCallback<S>(h: Handlers<S>, user: seq<Verdict<S>> -> bool): Callback {
    (events: seq<Event>) => !RunEvents(h, user, Idle(), events).done
  }

  lemma {:induction false} StopsForGood<S>(h: Handlers<S>, user: seq<Verdict<S>> -> bool, s: Status<S>,
                                           events: seq<Event>, e: Event)
    requires RunEvents(h, user, s, events).done
    ensures RunEvents(h, user, s, events + [e]).done
    decreases |events|
  {
    if events != [] && Expected(s, events[0]) {
      assert (events + [e])[1..] == events[1..] + [e];
      StopsForGood(h, user, React(h, user, s, events[0]), events[1..], e);
    }
  }

  // The parser has stopped exactly when the reader has.
  ghost predicate InStep<S>(h: Handlers<S>, user: seq<Verdict<S>> -> bool, s: State) {
    s.done <==> RunEvents(h, user, Idle(), s.events).done
  }

  lemma EmitInStep<S>(h: Handlers<S>, user: seq<Verdict<S>> -> bool, s: State, e: Event)
    requires InStep(h, user, s)
    ensures InStep(h, user, Emit(ReaderCallback(h, user), s, e))
  {
    hide RunEvents;
    if s.done { StopsForGood(h, user, Idle(), s.events, e); }
  }

  lemma CloseInStep<S>(h: Handlers<S>, user: seq<Verdict<S>> -> bool, s: State, id: char)
    requires InStep(h, user, s)
    ensures InStep(h, user, ClosePart(ReaderCallback(h, user), s, id))
  {
    hide RunEvents, ReaderCallback, Emit;
    if s.part != None && s.entry != None {
      var k := ReaderCallback(h, user);
      var t := Emit(k, s, PartEnd(s.part.value));
      EmitInStep(h, user, s, PartEnd(s.part.value));
      var e := s.entry.value.(parts := s.entry.value.parts + [s.part.value]);
      EmitInStep(h, user, t.(part := None, entry := None), EntryEnd(e.(size := s.offset - e.offset)));
    }
  }

  lemma OpenInStep<S>(h: Handlers<S>, user: seq<Verdict<S>> -> bool, s: State, b: string, id: char)
    requires InStep(h, user, s)
    ensures InStep(h, user, OpenPart(ReaderCallback(h, user), s, b, id))
  {
    hide RunEvents, ReaderCallback, Emit;
    var k := ReaderCallback(h, user);
    var e := Entry(s.lineOffset, b, [], 0);
    var u := s.(entry := Some(e));
    EmitInStep(h, user, u, EntryStart(e));
    var t := if s.entry != None then s else Emit(k, u, EntryStart(e));
    var p := Part(id, s.offset, 0);
    EmitInStep(h, user, t.(part := Some(p)), PartStart(p));
  }

  lemma DataInStep<S>(h: Handlers<S>, user: seq<Verdict<S>> -> bool, s: State)
    requires InStep(h, user, s)
    ensures InStep(h, user, Data(ReaderCallback(h, user), s))
  {
    hide RunEvents, ReaderCallback, Emit;
    EmitInStep(h, user, s, PartData(s.line));
  }

  lemma LineInStep<S>(h: Handlers<S>, user: seq<Verdict<S>> -> bool, s: State)
    requires InStep(h, user, s)
    ensures InStep(h, user, EndLine(ReaderCallback(h, user), s))
  {
    hide InStep, ReaderCallback, OpenPart, ClosePart, Data, Recognised;
    var m := Recognised(s);
    if m == None {
      DataInStep(h, user, s);
    } else {
      CloseInStep(h, user, s, m.value.1);
      OpenInStep(h, user, ClosePart(ReaderCallback(h, user), s, m.value.1), m.value.0, m.value.1);
    }
  }

  lemma StepInStep<S>(h: Handlers<S>, user: seq<Verdict<S>> -> bool, s: State, c: char)
    requires InStep(h, user, s)
    ensures InStep(h, user, Step(ReaderCallback(h, user), s, c))
  {
    hide ReaderCallback, RunEvents, Data, EndLine;
    var k := ReaderCallback(h, user);
    DataInStep(h, user, s);
    var r := Room(k, s);
    LineInStep(h, user, r.(line := r.line + [c], offset := r.offset + 1));
  }

  lemma {:induction false} RunInStep<S>(h: Handlers<S>, user: seq<Verdict<S>> -> bool, input: string)
    ensures InStep(h, user, Run(ReaderCallback(h, user), Init, input))
    decreases |input|
  {
    hide ReaderCallback, Step;
    if input == "" {
    } else {
      RunInStep(h, user, input[..|input| - 1]);
      StepInStep(h, user, Run(ReaderCallback(h, user), Init, input[..|input| - 1]), input[|input| - 1]);
    }
  }

  /** For every stream of bytes: the events are those of complete entries, each
      with at least one part and a list of exactly the parts that ended in it, and
      of one entry that is still open or none. The
      reader has handed on exactly the complete entries, each without an error
      if and only if it is acceptable, and the parser has stopped if and only if
      the reader's callback has asked for it. */
  lemma StreamVerdicts<S>(h: Handlers<S>, user: seq<Verdict<S>> -> bool, input: string)
    ensures var s := Run(ReaderCallback(h, user), Init, input);
            var p := ProgressOf(s.events);
            var t := RunEvents(h, user, Idle(), s.events);
            && s.events == EventsOf(p) && (p.current == None <==> s.entry == None)
            && s.done == t.done
            && |t.delivered| == |p.complete|
            && forall i :: 0 <= i < |p.complete| ==>
                 && p.complete[i].parts != [] && p.complete[i].end.parts == Ends(p.complete[i].parts)
                 && (!t.delivered[i].error <==> Acceptable(h, p.complete[i]))
  {
    hide RunEvents, ReaderCallback, Run, StreamOf, OpenStream, RunEntries, Acceptable;
    var s := Run(ReaderCallback(h, user), Init, input);
    Safety.RunAccounts(ReaderCallback(h, user), input);
    var seen := input[..s.offset];
    EventsGrouped(seen, s.events);
    var p := ProgressOf(s.events);
    RunInStep(h, user, input);
    var more := if p.current == None then [] else OpenStream(p.current.value);
    EntriesRun(h, user, Idle(), p.complete, more);
    var u := RunEntries(h, user, Idle(), p.complete);
    NoEvents(h, user, u);
    if p.current.Some? {
      OpenWithholds(h, user, u, p.current.value);
    }
    AllVerdicts(h, user, p.complete);
  }

  lemma NoEvents<S>(h: Handlers<S>, user: seq<Verdict<S>> -> bool, s: Status<S>)
    ensures RunEvents(h, user, s, []) == s
  {
  }

  lemma AllVerdicts<S>(h: Handlers<S>, user: seq<Verdict<S>> -> bool, entries: seq<EntryEvents>)
    ensures var t := RunEntries(h, user, Idle(), entries);
            && |t.delivered| == |entries|
            && forall i :: 0 <= i < |entries| ==> (!t.delivered[i].error <==> Acceptable(h, entries[i]))
  {
    hide RunEntry, Acceptable;
    forall i | 0 <= i < |entries|
      ensures var t := RunEntries(h, user, Idle(), entries);
              |t.delivered| == |entries| && (!t.delivered[i].error <==> Acceptable(h, entries[i]))
    {
      EntriesIndependent(h, user, Idle(), entries, i);
    }
  }
}
