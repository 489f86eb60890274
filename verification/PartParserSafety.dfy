/** Safety of the part parser over whole runs: the events it has emitted are an
    exact account of the bytes it has read. */
module PartParserSafety {
  import opened Wrappers
  import opened PartParser

  // Where a reader of the events stands in the stream.
  datatype Phase =
    | Broken
    | Outside(at: nat)                                     // no entry open; every entry so far ends by `at`
    | Between(entry: nat, b: string, parts: seq<Part>, at: nat)              // the next boundary line of the entry starts at `at`
    | Reading(entry: nat, b: string, parts: seq<Part>, part: Part, at: nat)  // part data read up to `at`

  predicate Slice(stream: string, at: nat, text: string) {
    at + |text| <= |stream| && stream[at..at + |text|] == text
  }

  /** One event replayed against the stream; anything the stream does not account for is Broken. */
  function Next(stream: string, p: Phase, e: Event): Phase {
    match (p, e)
    case (Outside(at), EntryStart(n)) =>
      if n.offset >= at && n.parts == [] then Between(n.offset, n.boundary, [], n.offset) else Broken
    case (Between(o, b, ps, at), PartStart(n)) =>
      if n.id != 'Z' && n.size == 0 && n.offset == at + |BoundaryLine(b, n.id)|
         && Slice(stream, at, BoundaryLine(b, n.id))
      then Reading(o, b, ps, n, n.offset) else Broken
    case (Reading(o, b, ps, n, at), PartData(d)) =>
      if Slice(stream, at, d) then Reading(o, b, ps, n, at + |d|) else Broken
    case (Reading(o, b, ps, n, at), PartEnd(m)) =>
      if m == n.(size := m.size) && n.offset + m.size == at then Between(o, b, ps + [m], at) else Broken
    case (Between(o, b, ps, at), EntryEnd(n)) =>
      if o < at && n.offset == o && n.boundary == b && n.parts == ps && ps != []
         && n.offset + n.size == at + |BoundaryLine(b, 'Z')|
         && Slice(stream, at, BoundaryLine(b, 'Z'))
      then Outside(at + |BoundaryLine(b, 'Z')|) else Broken
    case _ => Broken
  }

  function Replay(stream: string, events: seq<Event>): Phase {
    if events == [] then Outside(0)
    else Next(stream, Replay(stream, events[..|events| - 1]), events[|events| - 1])
  }

  /** What the events say agrees with what the parser holds, the buffered line aside. */
  ghost predicate AccountsLine(stream: string, s: State) {
    && (s.part == None <==> s.entry == None)
    && s.offset == |stream|
    && s.lineOffset + |s.line| == s.offset
    && s.line == stream[s.lineOffset..]
    && match Replay(stream, s.events)
       case Broken => false
       case Outside(at) => s.entry == None && at <= s.lineOffset
       case Between(_, _, _, _) => false
       case Reading(o, b, ps, n, at) =>
         && s.entry != None && s.part != None && s.entry.value.parts == ps
         && s.entry.value.offset == o && s.entry.value.boundary == b && o < at
         && s.part.value == n.(size := s.part.value.size)
         && n.offset + s.part.value.size == at == s.lineOffset
  }

  ghost predicate Accounts(stream: string, s: State) {
    Inv(s) && AccountsLine(stream, s)
  }

  // ---------- one event at a time ----------

  lemma ReplayEmit(stream: string, k: Callback, s: State, e: Event)
    ensures Replay(stream, Emit(k, s, e).events) == Next(stream, Replay(stream, s.events), e)
  {
    assert Emit(k, s, e).events[..|s.events|] == s.events;
  }

  /** More input never invalidates the account of what came before. */
  lemma {:induction false} ReplayExtend(stream: string, more: string, events: seq<Event>)
    requires Replay(stream, events) != Broken
    ensures Replay(stream + more, events) == Replay(stream, events)
    decreases |events|
  {
    if events != [] {
      var prefix := events[..|events| - 1];
      assert Replay(stream, prefix) != Broken;
      ReplayExtend(stream, more, prefix);
      forall at: nat, text: string | Slice(stream, at, text)
        ensures Slice(stream + more, at, text)
      {
        assert (stream + more)[at..at + |text|] == stream[at..at + |text|];
      }
    }
  }

  lemma DataAccounts(stream: string, k: Callback, s: State, hasStart: bool)
    requires AccountsLine(stream, s)
    ensures Accounts(stream, Flush(k, Data(k, s), hasStart))
  {
    if s.part != None {
      ReplayEmit(stream, k, s, PartData(s.line));
      assert Slice(stream, s.lineOffset, s.line);
    }
  }

  // Between two parts of one entry, or outside of all entries, in front of a boundary line.
  ghost predicate AtBoundary(stream: string, s: State, b: string) {
    && s.part == None
    && s.offset == |stream|
    && s.lineOffset <= s.offset
    && match Replay(stream, s.events)
       case Outside(at) => s.entry == None && at <= s.lineOffset
       case Between(o, b', ps, at) =>
         && s.entry != None && s.entry.value.parts == ps && at == s.lineOffset && o < at
         && s.entry.value.offset == o && s.entry.value.boundary == b == b'
       case _ => false
  }

  lemma CloseAccounts(stream: string, k: Callback, s: State, b: string, id: char)
    requires AccountsLine(stream, s) && id != 'Z'
    requires s.entry != None ==> s.entry.value.boundary == b
    ensures AtBoundary(stream, ClosePart(k, s, id), b)
    ensures ClosePart(k, s, id).lineOffset == s.lineOffset && ClosePart(k, s, id).offset == s.offset
  {
    if s.part != None {
      ReplayEmit(stream, k, s, PartEnd(s.part.value));
    }
  }

  lemma PartEndAccounts(stream: string, k: Callback, s: State)
    requires AccountsLine(stream, s) && s.part != None
    ensures s.entry != None && s.entry.value.offset < s.lineOffset
    ensures Replay(stream, Emit(k, s, PartEnd(s.part.value)).events)
         == Between(s.entry.value.offset, s.entry.value.boundary, s.entry.value.parts + [s.part.value], s.lineOffset)
  {
    hide Slice;
    ReplayEmit(stream, k, s, PartEnd(s.part.value));
  }

  lemma EntryEndAccounts(stream: string, k: Callback, s: State, z: Entry, at: nat)
    requires Replay(stream, s.events) == Between(z.offset, z.boundary, z.parts, at) && z.offset < at && z.parts != []
    requires Slice(stream, at, BoundaryLine(z.boundary, 'Z'))
    requires at + |BoundaryLine(z.boundary, 'Z')| == s.offset == |stream| && z.offset + z.size == s.offset
    requires s.part == None && s.entry == None
    ensures Accounts(stream, Flush(k, Emit(k, s, EntryEnd(z)), true))
  {
    hide Slice, BoundaryLine, Replay;
    ReplayEmit(stream, k, s, EntryEnd(z));
    assert stream[|stream|..] == "";
  }

  lemma CloseLastAccounts(stream: string, k: Callback, s: State, b: string)
    requires AccountsLine(stream, s) && s.line == BoundaryLine(b, 'Z')
    requires s.entry != None ==> s.entry.value.boundary == b
    ensures Accounts(stream, Flush(k, ClosePart(k, s, 'Z'), true))
  {
    hide Replay, BoundaryLine;
    if s.part != None {
      PartEndAccounts(stream, k, s);
      var t := Emit(k, s, PartEnd(s.part.value));
      var e := s.entry.value.(parts := s.entry.value.parts + [s.part.value]);
      var z := e.(size := s.offset - e.offset);
      assert Slice(stream, s.lineOffset, BoundaryLine(b, 'Z'));
      EntryEndAccounts(stream, k, t.(part := None, entry := None), z, s.lineOffset);
    } else {
      assert stream[|stream|..] == "";
    }
  }

  // In front of a boundary line of the open entry.
  ghost predicate InEntry(stream: string, s: State, b: string) {
    && s.part == None && s.offset == |stream| && s.lineOffset <= s.offset
    && s.entry != None && s.entry.value.boundary == b && s.entry.value.offset <= s.lineOffset
    && Replay(stream, s.events) == Between(s.entry.value.offset, b, s.entry.value.parts, s.lineOffset)
  }

  lemma EntryStartAccounts(stream: string, k: Callback, s: State, e: Entry)
    requires s.part == None && s.offset == |stream| && s.lineOffset <= s.offset
    requires e.offset == s.lineOffset && e.parts == []
    requires var p := Replay(stream, s.events); p.Outside? && p.at <= s.lineOffset
    ensures InEntry(stream, Emit(k, s.(entry := Some(e)), EntryStart(e)), e.boundary)
  {
    hide Replay, Slice;
    ReplayEmit(stream, k, s.(entry := Some(e)), EntryStart(e));
  }

  lemma PartStartAccounts(stream: string, k: Callback, s: State, b: string, p: Part)
    requires InEntry(stream, s, b) && p.id != 'Z' && p.size == 0 && p.offset == s.offset
    requires Slice(stream, s.lineOffset, BoundaryLine(b, p.id)) && s.lineOffset + |BoundaryLine(b, p.id)| == s.offset
    ensures Accounts(stream, Flush(k, Emit(k, s.(part := Some(p)), PartStart(p)), true))
  {
    hide Replay, Slice;
    ReplayEmit(stream, k, s.(part := Some(p)), PartStart(p));
    assert stream[|stream|..] == "";
  }

  lemma OpenAccounts(stream: string, k: Callback, s: State, b: string, id: char)
    requires AtBoundary(stream, s, b) && id != 'Z'
    requires stream[s.lineOffset..] == BoundaryLine(b, id)
    ensures Accounts(stream, Flush(k, OpenPart(k, s, b, id), true))
  {
    hide Replay, Accounts, BoundaryLine;
    assert Slice(stream, s.lineOffset, BoundaryLine(b, id));
    var e := Entry(s.lineOffset, b, [], 0);
    var t := if s.entry != None then s else Emit(k, s.(entry := Some(e)), EntryStart(e));
    if s.entry == None {
      EntryStartAccounts(stream, k, s, e);
    }
    assert InEntry(stream, t, b);
    PartStartAccounts(stream, k, t, b, Part(id, s.offset, 0));
  }

  lemma LineAccounts(stream: string, k: Callback, s: State)
    requires AccountsLine(stream, s)
    ensures Accounts(stream, Flush(k, EndLine(k, s), true))
  {
    var m := Recognised(s);
    if m == None {
      DataAccounts(stream, k, s, true);
    } else {
      var (b, id) := m.value;
      ParseBoundaryExact(s.line, b, id);
      if id == 'Z' {
        CloseLastAccounts(stream, k, s, b);
      } else {
        CloseAccounts(stream, k, s, b, id);
        OpenAccounts(stream, k, ClosePart(k, s, id), b, id);
      }
    }
  }

  lemma PushAccounts(stream: string, s: State, c: char)
    requires Accounts(stream, s)
    ensures AccountsLine(stream + [c], s.(line := s.line + [c], offset := s.offset + 1))
  {
    ReplayExtend(stream, [c], s.events);
  }

  lemma StepAccounts(stream: string, k: Callback, s: State, c: char)
    requires Accounts(stream, s) && !s.done
    ensures Accounts(stream + [c], Step(k, s, c))
  {
    var r := Room(k, s);
    if |s.line| >= MAX_LINE {
      DataAccounts(stream, k, s, false);
    }
    assert Accounts(stream, r);
    PushAccounts(stream, r, c);
    StepInv(k, s, c);
    if c == '\n' {
      LineAccounts(stream + [c], k, r.(line := r.line + [c], offset := r.offset + 1));
    }
  }

  /** The bytes consumed are those up to the callback's stop, and they are accounted for. */
  ghost predicate Accounted(input: string, s: State) {
    && s.offset <= |input|
    && (!s.done ==> s.offset == |input|)
    && Accounts(input[..s.offset], s)
  }

  lemma StepAccounted(k: Callback, input: string, s: State, c: char)
    requires Accounted(input, s)
    ensures Accounted(input + [c], Step(k, s, c))
  {
    assert (input + [c])[..s.offset] == input[..s.offset];
    StepOffset(k, s, c);
    if !s.done {
      assert input[..s.offset] == input;
      StepAccounts(input, k, s, c);
      assert (input + [c])[..s.offset + 1] == input + [c];
    }
  }

  /** For every input and every callback, the events emitted follow
      (ENTRY_START (PART_START PART_DATA* PART_END)+ ENTRY_END)*, cut anywhere,
      and tile the bytes consumed: each part starts right behind its boundary
      line, its data events are the consecutive slices of the stream, it ends
      where the next boundary line of the same entry starts, an entry lists the
      parts that ended in it, and its size reaches from its first boundary line to the end of its Z line. */
  lemma {:induction false} RunAccounts(k: Callback, input: string)
    ensures Accounted(input, Run(k, Init, input))
    decreases |input|
  {
    if input == "" {
    } else {
      var prefix := input[..|input| - 1];
      RunAccounts(k, prefix);
      StepAccounted(k, prefix, Run(k, Init, prefix), input[|input| - 1]);
      assert prefix + [input[|input| - 1]] == input;
    }
  }
}
