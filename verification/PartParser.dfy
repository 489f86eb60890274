/** The audit-log part parser (alp2/alp2_pp.c): a push parser that cuts a byte
    stream into lines of at most MAX_LINE bytes and reports entries and parts
    through a callback. */
module PartParser {
  import opened Wrappers
  import opened Sequences

  const MAX_LINE: nat := 16384
  const RC_DONE: int := 0
  const RC_NEED_DATA: int := 1
  const RC_INCORRECT_STATE: int := -1001
  const RC_FATAL: int := -1002

  datatype Part = Part(id: char, offset: nat, size: nat)

  datatype Entry = Entry(offset: nat, boundary: string, parts: seq<Part>, size: int)

  datatype Event =
    | EntryStart(entry: Entry)
    | PartStart(part: Part)
    | PartData(data: string)
    | PartEnd(part: Part)
    | EntryEnd(entry: Entry)

  // The callback is given every event together with its predecessors and says
  // whether parsing goes on.
  type Callback = seq<Event> -> bool

  datatype State = State(
    done: bool, offset: nat, line: string, hasStart: bool, lineOffset: nat,
    part: Option<Part>, entry: Option<Entry>, events: seq<Event>)

  const Init: State := State(false, 0, "", true, 0, None, None, [])

  // ---------- boundary lines ----------

  predicate IsHex(c: char) {
    '0' <= c <= '9' || 'a' <= c <= 'f' || 'A' <= c <= 'F'
  }

  /** "--B-X--\n", the line that opens part X of an entry with boundary B. */
  function BoundaryLine(b: string, id: char): string {
    "--" + b + "-" + [id] + "--\n"
  }

  predicate ValidBoundary(b: string) {
    |b| >= 8 && forall i :: 0 <= i < |b| ==> IsHex(b[i])
  }

  function HexEnd(line: string, i: nat): (e: nat)
    requires i <= |line|
    ensures i <= e <= |line|
    ensures forall k :: i <= k < e ==> IsHex(line[k])
    ensures e < |line| ==> !IsHex(line[e])
    decreases |line| - i
  {
    if i < |line| && IsHex(line[i]) then HexEnd(line, i + 1) else i
  }

  /** The boundary and part letter of a boundary line, None for any other line. */
  function ParseBoundary(line: string): Option<(string, char)> {
    if |line| < 15 || line[0] != '-' || line[1] != '-' then None
    else
      var i := HexEnd(line, 2);
      if i >= 10 && i + 5 == |line| && line[i] == '-' && 'A' <= line[i + 1] <= 'Z'
         && line[i + 2] == '-' && line[i + 3] == '-' && line[i + 4] == '\n'
      then Some((line[2..i], line[i + 1]))
      else None
  }

  lemma ParseBoundaryExact(line: string, b: string, id: char)
    ensures ParseBoundary(line) == Some((b, id))
       <==> ValidBoundary(b) && 'A' <= id <= 'Z' && line == BoundaryLine(b, id)
  {
    if ParseBoundary(line) == Some((b, id)) {
      var i := HexEnd(line, 2);
      assert line == line[..2] + line[2..i] + line[i..];
      assert line[i..] == ['-', id, '-', '-', '\n'];
      assert line[..2] == "--";
      assert line == BoundaryLine(b, id);
    }
    if ValidBoundary(b) && 'A' <= id <= 'Z' && line == BoundaryLine(b, id) {
      var n := 2 + |b|;
      assert forall k :: 0 <= k < |b| ==> line[2 + k] == b[k];
      assert line[n] == '-';
      var i := HexEnd(line, 2);
      assert i == n;
      assert line[2..n] == b;
    }
  }

  lemma ValidBoundaryExact(b: string)
    ensures ValidBoundary(b) <==> |b| >= 8 && forall i :: 0 <= i < |b| ==> b[i] in "0123456789abcdefABCDEF"
  {
    hide ValidBoundary;
    assert ValidBoundary(b) <==> |b| >= 8 && forall i :: 0 <= i < |b| ==> IsHex(b[i]) by { ValidUnfolds(b); }
    forall i | 0 <= i < |b| ensures IsHex(b[i]) <==> b[i] in "0123456789abcdefABCDEF" {
      HexDigit(b[i]);
    }
  }

  lemma ValidUnfolds(b: string)
    ensures ValidBoundary(b) <==> |b| >= 8 && forall i :: 0 <= i < |b| ==> IsHex(b[i])
  {
  }

  lemma HexDigit(c: char)
    ensures IsHex(c) <==> c in "0123456789abcdefABCDEF"
  {
    var digits := "0123456789abcdefABCDEF";
    if '0' <= c <= '9' { assert digits[c as int - '0' as int] == c; }
    if 'a' <= c <= 'f' { assert digits[10 + (c as int - 'a' as int)] == c; }
    if 'A' <= c <= 'F' { assert digits[16 + (c as int - 'A' as int)] == c; }
  }

  // ---------- the parser as a function of its state and one byte ----------

  function Emit(k: Callback, s: State, e: Event): State {
    s.(events := s.events + [e], done := s.done || !k(s.events + [e]))
  }

  function Data(k: Callback, s: State): State {
    if s.part == None then s
    else
      var t := Emit(k, s, PartData(s.line));
      t.(part := Some(s.part.value.(size := s.part.value.size + |s.line|)))
  }

  function ClosePart(k: Callback, s: State, id: char): State {
    if s.part == None || s.entry == None then s
    else
      var t := Emit(k, s, PartEnd(s.part.value));
      var e := s.entry.value.(parts := s.entry.value.parts + [s.part.value]);
      if id != 'Z' then t.(part := None, entry := Some(e))
      else
        var z := e.(size := s.offset - e.offset);
        Emit(k, t.(part := None, entry := None), EntryEnd(z))
  }

  function OpenPart(k: Callback, s: State, b: string, id: char): State {
    if id == 'Z' then s
    else
      var t := if s.entry != None then s
               else
                 var e := Entry(s.lineOffset, b, [], 0);
                 Emit(k, s.(entry := Some(e)), EntryStart(e));
      var p := Part(id, s.offset, 0);
      Emit(k, t.(part := Some(p)), PartStart(p))
  }

  /** The boundary line held in s.line that the parser obeys in state s. */
  function Recognised(s: State): Option<(string, char)> {
    var m := ParseBoundary(s.line);
    if !s.hasStart || m == None || (s.entry != None && s.entry.value.boundary != m.value.0)
    then None else m
  }

  function EndLine(k: Callback, s: State): State {
    var m := Recognised(s);
    if m == None then Data(k, s)
    else OpenPart(k, ClosePart(k, s, m.value.1), m.value.0, m.value.1)
  }

  function Flush(k: Callback, s: State, hasStart: bool): State {
    s.(line := "", hasStart := hasStart, lineOffset := s.offset)
  }

  function Room(k: Callback, s: State): State {
    if |s.line| >= MAX_LINE then Flush(k, Data(k, s), false) else s
  }

  function Step(k: Callback, s: State, c: char): State {
    if s.done then s
    else
      var r := Room(k, s);
      var t := r.(line := r.line + [c], offset := r.offset + 1);
      if c == '\n' then Flush(k, EndLine(k, t), true) else t
  }

  function Run(k: Callback, s: State, input: string): State
    decreases |input|
  {
    if input == "" then s else Step(k, Run(k, s, input[..|input| - 1]), input[|input| - 1])
  }

  // What every run keeps: an open entry is one with an open part.
  ghost predicate Inv(s: State) {
    && |s.line| <= 16384
    && (s.part == None <==> s.entry == None)
    && s.lineOffset + |s.line| == s.offset
    && forall i :: 0 <= i < |s.line| ==> s.line[i] != '\n'
  }

  lemma RoomInv(k: Callback, s: State)
    requires Inv(s)
    ensures Inv(Room(k, s)) && |Room(k, s).line| < MAX_LINE
  {
  }

  lemma StepInv(k: Callback, s: State, c: char)
    requires Inv(s)
    ensures Inv(Step(k, s, c))
  {
  }

  lemma {:induction false} RunInv(k: Callback, s: State, input: string)
    requires Inv(s)
    ensures Inv(Run(k, s, input))
    decreases |input|
  {
    if input != "" {
      RunInv(k, s, input[..|input| - 1]);
      StepInv(k, Run(k, s, input[..|input| - 1]), input[|input| - 1]);
    }
  }

  /** Splitting the stream over several calls changes nothing. */
  lemma {:induction false} RunSplit(k: Callback, s: State, a: string, b: string)
    ensures Run(k, s, a + b) == Run(k, Run(k, s, a), b)
    decreases |b|
  {
    if b == "" {
      assert a + b == a;
    } else {
      var b' := b[..|b| - 1];
      assert (a + b)[..|a + b| - 1] == a + b';
      RunSplit(k, s, a, b');
    }
  }

  function RunAll(k: Callback, s: State, chunks: seq<string>): State
    decreases |chunks|
  {
    if chunks == [] then s else RunAll(k, Run(k, s, chunks[0]), chunks[1..])
  }

  lemma {:induction false} ChunkingIrrelevant(k: Callback, s: State, chunks: seq<string>)
    ensures RunAll(k, s, chunks) == Run(k, s, Flatten(chunks))
    decreases |chunks|
  {
    if chunks != [] {
      FlattenNext(chunks, 0);
      RunSplit(k, s, chunks[0], Flatten(chunks[1..]));
      ChunkingIrrelevant(k, Run(k, s, chunks[0]), chunks[1..]);
    }
  }

  // ---------- the parser object ----------

  class Parser {
    const callback: Callback
    var errored: bool
    var done: bool
    var boundary: string
    var currentOffset: nat
    var inputBuf: string
    var inputPos: nat
    const lineBuf: array<char>
    var linePos: nat
    var lineHasStart: bool
    var lineOffset: nat
    var currentPart: Option<Part>
    var currentEntry: Option<Entry>
    var events: seq<Event>

    ghost predicate Valid()
      reads this, lineBuf
    {
      && lineBuf.Length == MAX_LINE
      && linePos <= MAX_LINE
      && inputPos <= |inputBuf|
      && Inv(Model())
    }

    ghost function Model(): State
      requires linePos <= lineBuf.Length
      reads this, lineBuf
    {
      State(done, currentOffset, lineBuf[..linePos], lineHasStart, lineOffset,
            currentPart, currentEntry, events)
    }

    constructor (callback: Callback)
      ensures Valid() && fresh(lineBuf)
      ensures Model() == Init && inputPos == |inputBuf| && !errored
      ensures this.callback == callback
    {
      this.callback := callback;
      errored, done, boundary, currentOffset := false, false, "", 0;
      inputBuf, inputPos := "", 0;
      lineBuf := new char[MAX_LINE](_ => '\0');
      linePos, lineHasStart, lineOffset := 0, true, 0;
      currentPart, currentEntry, events := None, None, [];
    }

    method Invoke(e: Event)
      requires linePos <= lineBuf.Length
      modifies this`events, this`done
      ensures Model() == Emit(callback, old(Model()), e)
    {
      events := events + [e];
      if !callback(events) {
        done := true;
      }
    }

    method ProcessPartData()
      requires linePos <= lineBuf.Length
      modifies this`events, this`done, this`currentPart
      ensures Model() == Data(callback, old(Model()))
    {
      if currentPart == None {
        return;
      }
      Invoke(PartData(lineBuf[..linePos]));
      currentPart := Some(currentPart.value.(size := currentPart.value.size + linePos));
    }

    /** Returns the part letter of the boundary line in the line buffer, or None. */
    method IsBoundaryLine() returns (id: Option<char>)
      requires 0 < linePos <= lineBuf.Length && lineBuf[linePos - 1] == '\n'
      requires forall i :: 0 <= i < linePos - 1 ==> lineBuf[i] != '\n'
      requires lineHasStart
      modifies this`boundary
      ensures id == None <==> Recognised(Model()) == None
      ensures id != None ==> id.value == Recognised(Model()).value.1
      ensures id != None && currentEntry == None ==> boundary == Recognised(Model()).value.0
    {
      ghost var line := lineBuf[..linePos];
      if linePos < 15 {
        return None;
      }
      if lineBuf[0] != '-' || lineBuf[1] != '-' {
        return None;
      }
      var i := 2;
      while i < linePos && IsHex(lineBuf[i])
        invariant 2 <= i < linePos
        invariant HexEnd(line, 2) == HexEnd(line, i)
        decreases linePos - i
      {
        i := i + 1;
      }
      if i - 2 < 8 {
        return None;
      }
      var newBoundary := lineBuf[2..i];
      assert line[2..i] == newBoundary;
      if i + 5 < linePos
         || lineBuf[i] != '-'
         || lineBuf[i + 1] < 'A'
         || lineBuf[i + 1] > 'Z'
         || lineBuf[i + 2] != '-'
         || lineBuf[i + 3] != '-'
         || lineBuf[i + 4] != '\n'
      {
        return None;
      }
      if currentEntry == None {
        boundary := newBoundary;
        return Some(lineBuf[i + 1]);
      } else if currentEntry.value.boundary != newBoundary {
        return None;
      } else {
        return Some(lineBuf[i + 1]);
      }
    }

    method ResetLine(hasStart: bool)
      requires linePos <= lineBuf.Length
      modifies this`linePos, this`lineHasStart, this`lineOffset
      ensures linePos == 0 && Model() == Flush(callback, old(Model()), hasStart)
    {
      linePos, lineHasStart, lineOffset := 0, hasStart, currentOffset;
    }

    method FinishPart(id: char)
      requires linePos <= lineBuf.Length
      requires currentPart == None <==> currentEntry == None
      modifies this`events, this`done, this`currentPart, this`currentEntry
      ensures Model() == ClosePart(callback, old(Model()), id)
    {
      if currentPart != None {
        Invoke(PartEnd(currentPart.value));
        currentEntry := Some(currentEntry.value.(parts := currentEntry.value.parts + [currentPart.value]));
        currentPart := None;
        if id == 'Z' {
          var e := currentEntry.value.(size := currentOffset - currentEntry.value.offset);
          currentEntry := None;
          Invoke(EntryEnd(e));
        }
      }
    }

    method StartPart(id: char)
      requires linePos <= lineBuf.Length
      modifies this`events, this`done, this`currentPart, this`currentEntry, this`boundary
      ensures Model() == OpenPart(callback, old(Model()), old(boundary), id)
    {
      if id != 'Z' {
        if currentEntry == None {
          currentEntry := Some(Entry(lineOffset, boundary, [], 0));
          boundary := "";
          Invoke(EntryStart(currentEntry.value));
        }
        currentPart := Some(Part(id, currentOffset, 0));
        Invoke(PartStart(currentPart.value));
      }
    }

    method Push(c: char)
      requires linePos < lineBuf.Length
      modifies this`currentOffset, this`linePos, lineBuf
      ensures linePos == old(linePos) + 1 && lineBuf[old(linePos)] == c
      ensures Model() == old(Model()).(line := old(Model()).line + [c], offset := old(currentOffset) + 1)
    {
      currentOffset := currentOffset + 1;
      lineBuf[linePos] := c;
      linePos := linePos + 1;
      assert lineBuf[..linePos] == old(lineBuf[..linePos]) + [c];
    }

    method MakeRoom()
      requires linePos <= lineBuf.Length == MAX_LINE
      modifies this`events, this`done, this`currentPart, this`linePos, this`lineHasStart, this`lineOffset
      ensures linePos < lineBuf.Length && Model() == Room(callback, old(Model()))
    {
      if linePos >= lineBuf.Length {
        ProcessPartData();
        ResetLine(false);
      }
    }

    method ProcessLine()
      requires 0 < linePos <= lineBuf.Length && lineBuf[linePos - 1] == '\n'
      requires forall i :: 0 <= i < linePos - 1 ==> lineBuf[i] != '\n'
      requires currentPart == None <==> currentEntry == None
      modifies this`events, this`done, this`currentPart, this`currentEntry, this`boundary
      ensures Model() == EndLine(callback, old(Model()))
    {
      if lineHasStart {
        var id := IsBoundaryLine();
        if id != None {
          FinishPart(id.value);
          StartPart(id.value);
        } else {
          ProcessPartData();
        }
      } else {
        ProcessPartData();
      }
    }

    method ProcessByte(c: char)
      requires Valid() && !done
      modifies this`events, this`done, this`currentPart, this`currentEntry, this`boundary,
               this`linePos, this`lineHasStart, this`lineOffset, this`currentOffset, lineBuf
      ensures Valid() && Model() == Step(callback, old(Model()), c)
    {
      hide Room, EndLine;
      ghost var s := Model();
      MakeRoom();
      RoomInv(callback, s);
      Push(c);
      if c == '\n' {
        ProcessLine();
        ResetLine(true);
      }
      StepInv(callback, s, c);
    }

    /** Feeds data to the parser; bytes after the callback's stop are not consumed. */
    method Process(data: string) returns (rc: int)
      requires Valid()
      modifies this, lineBuf
      ensures Valid() && errored == old(errored)
      ensures errored ==> rc == -1002 && Model() == old(Model())
      ensures !errored && old(inputPos < |inputBuf|) ==> rc == -1001 && Model() == old(Model())
      ensures !errored && old(inputPos == |inputBuf|) ==>
                && Model() == Run(callback, old(Model()), data)
                && rc == (if done then 0 else 1)
                && inputBuf == data && inputPos == currentOffset - old(currentOffset)
                && (!done ==> inputPos == |data|)
    {
      hide Step, Inv;
      if errored {
        return RC_FATAL;
      }
      if inputPos < |inputBuf| {
        return RC_INCORRECT_STATE;
      }
      inputBuf := data;
      inputPos := 0;
      ghost var s := Model();
      while inputPos < |inputBuf| && !done
        invariant Valid() && inputBuf == data && !errored
        invariant Model() == Run(callback, s, data[..inputPos])
        invariant inputPos == currentOffset - s.offset
        decreases |data| - inputPos
      {
        RunNext(callback, s, data, inputPos);
        ProcessByte(inputBuf[inputPos]);
        inputPos := inputPos + 1;
      }
      RunStopped(callback, s, data, inputPos);
      rc := if done then RC_DONE else RC_NEED_DATA;
    }
  }

  lemma RunNext(k: Callback, s: State, data: string, n: nat)
    requires n < |data|
    ensures Run(k, s, data[..n + 1]) == Step(k, Run(k, s, data[..n]), data[n])
    ensures !Run(k, s, data[..n]).done ==> Run(k, s, data[..n + 1]).offset == Run(k, s, data[..n]).offset + 1
  {
    assert data[..n + 1][..n] == data[..n];
    StepOffset(k, Run(k, s, data[..n]), data[n]);
  }

  lemma StepOffset(k: Callback, s: State, c: char)
    ensures Step(k, s, c).offset == if s.done then s.offset else s.offset + 1
  {
  }

  lemma RunStopped(k: Callback, s: State, data: string, n: nat)
    requires n <= |data|
    requires n == |data| || Run(k, s, data[..n]).done
    ensures Run(k, s, data) == Run(k, s, data[..n])
  {
    assert data == data[..n] + data[n..];
    RunSplit(k, s, data[..n], data[n..]);
    if n < |data| {
      RunDone(k, Run(k, s, data[..n]), data[n..]);
    }
  }

  /** Once the callback has stopped the parser nothing changes any more. */
  lemma {:induction false} RunDone(k: Callback, s: State, input: string)
    requires s.done
    ensures Run(k, s, input) == s
    decreases |input|
  {
    if input != "" {
      RunDone(k, s, input[..|input| - 1]);
    }
  }
}
