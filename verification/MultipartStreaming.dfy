/** How the network splits a multipart body does not matter. */
module MultipartStreaming {
  import opened Sequences
  import opened Multipart

  lemma {:induction false} RunSplit(cfg: Config, s: State, a: string, b: string)
    ensures Run(cfg, s, a + b) == Run(cfg, Run(cfg, s, a), b)
    decreases |b|
  {
    hide Step;
    if b == "" {
      assert a + b == a;
    } else {
      assert (a + b)[..|a + b| - 1] == a + b[..|b| - 1];
      RunSplit(cfg, s, a, b[..|b| - 1]);
    }
  }

  lemma {:induction false} SessionSplit(cfg: Config, f: Session, a: string, b: string)
    ensures RunSession(cfg, f, a + b) == RunSession(cfg, RunSession(cfg, f, a), b)
    decreases |b|
  {
    hide SessionStep, Run;
    if b == "" {
      assert a + b == a;
    } else {
      assert (a + b)[..|a + b| - 1] == a + b[..|b| - 1];
      SessionSplit(cfg, f, a, b[..|b| - 1]);
    }
  }

  /** A closed or failed parser takes no more bytes. */
  lemma {:induction false} StoppedSession(cfg: Config, f: Session, input: string)
    requires Stopped(f.state)
    ensures RunSession(cfg, f, input) == f
    decreases |input|
  {
    hide Run;
    if input != "" {
      StoppedSession(cfg, f, input[..|input| - 1]);
    }
  }

  /** Data outside of the parts was seen, wherever the parser says it was. */
  predicate Outside(f: Session) {
    f.dataBefore || f.dataAfter
  }

  // Equal in all but the place of the data outside of the parts.
  predicate SameOutcome(f: Session, g: Session) {
    f.state == g.state && Outside(f) == Outside(g)
  }

  /** Once the closing boundary is read, more bytes only raise a flag: which one
      depends on whether they come in the same call. */
  lemma AfterClosing(cfg: Config, f: Session, a: string, b: string)
    requires !Stopped(f.state) && a != "" && b != ""
    requires Chunk(cfg, f, a).state.complete
    ensures Chunk(cfg, Chunk(cfg, f, a), b) == Chunk(cfg, f, a).(dataBefore := true)
    ensures Chunk(cfg, f, a + b) == Chunk(cfg, f, a).(dataAfter := true)
  {
    hide RunSession, Run;
    var s := f.(state := f.state.(seenData := true));
    RunFrame(cfg, s.state, a);
    SessionSplit(cfg, s, a, b);
    StoppedSession(cfg, RunSession(cfg, s, a), b);
    var b' := b[..|b| - 1];
    assert (a + b)[..|a + b| - 1] == a + b';
    RunSplit(cfg, s.state, a, b');
    StoppedSession(cfg, RunSession(cfg, s, a), b');
  }

  lemma AfterFailure(cfg: Config, f: Session, a: string, b: string)
    requires !Stopped(f.state) && a != "" && b != ""
    requires Chunk(cfg, f, a).state.flags.error
    ensures Chunk(cfg, f, a + b) == Chunk(cfg, f, a)
  {
    hide RunSession, Run;
    var s := f.(state := f.state.(seenData := true));
    RunFrame(cfg, s.state, a);
    SessionSplit(cfg, s, a, b);
    StoppedSession(cfg, RunSession(cfg, s, a), b);
    var b' := b[..|b| - 1];
    assert (a + b)[..|a + b| - 1] == a + b';
    RunSplit(cfg, s.state, a, b');
    StoppedSession(cfg, RunSession(cfg, s, a), b');
    CompleteStays(cfg, s.state, a);
  }

  lemma CompleteStays(cfg: Config, s: State, a: string)
    requires a != ""
    ensures Run(cfg, s, a[..|a| - 1]).complete ==> Run(cfg, s, a).complete
  {
    hide TooEarly, Flush;
  }

  lemma StillReading(cfg: Config, f: Session, a: string, b: string)
    requires !Stopped(f.state) && a != "" && b != ""
    requires !Stopped(Chunk(cfg, f, a).state)
    ensures Chunk(cfg, f, a + b) == Chunk(cfg, Chunk(cfg, f, a), b)
  {
    hide RunSession, Run;
    var s := f.(state := f.state.(seenData := true));
    RunFrame(cfg, s.state, a);
    SessionSplit(cfg, s, a, b);
    var b' := b[..|b| - 1];
    assert (a + b)[..|a + b| - 1] == a + b';
    RunSplit(cfg, s.state, a, b');
    CompleteStays(cfg, s.state, a);
    var g := RunSession(cfg, s, a);
    assert g.state.(seenData := true) == g.state;
    assert Chunk(cfg, f, a) == g;
  }

  /** Two reads and the one read that joins them lead to the same parser state,
      parts and verdict; a failure in the first read is final. */
  lemma ChunkSplit(cfg: Config, f: Session, a: string, b: string)
    requires !f.state.flags.error
    ensures var g := Chunk(cfg, f, a);
            SameOutcome(Chunk(cfg, f, a + b), if g.state.flags.error then g else Chunk(cfg, g, b))
  {
    hide ReadBytes;
    if b == "" {
      assert a + b == a;
    } else if a == "" {
      assert a + b == b;
    } else if !f.state.complete {
      var g := Chunk(cfg, f, a);
      if g.state.flags.error {
        AfterFailure(cfg, f, a, b);
      } else if g.state.complete {
        AfterClosing(cfg, f, a, b);
      } else {
        StillReading(cfg, f, a, b);
      }
    }
  }

  /** When the two reads and their join differ at all: exactly when the first
      read closes the body, unless both flags are up already. */
  lemma FlagsDifferExactly(cfg: Config, f: Session, a: string, b: string)
    requires !f.state.flags.error && a != "" && b != ""
    ensures var g := Chunk(cfg, f, a);
            var two := if g.state.flags.error then g else Chunk(cfg, g, b);
            var one := Chunk(cfg, f, a + b);
            one != two <==> !f.state.complete && g.state.complete && !g.state.flags.error && !(g.dataBefore && g.dataAfter)
  {
    hide ReadBytes;
    if !f.state.complete {
      var g := Chunk(cfg, f, a);
      if g.state.flags.error {
        AfterFailure(cfg, f, a, b);
      } else if g.state.complete {
        AfterClosing(cfg, f, a, b);
      } else {
        StillReading(cfg, f, a, b);
      }
    }
  }

  /** Any division of the body into reads gives what a single read gives. */
  lemma {:induction false} ChunkingIrrelevant(cfg: Config, f: Session, chunks: seq<string>)
    requires !f.state.flags.error
    ensures SameOutcome(Chunks(cfg, f, chunks), Chunk(cfg, f, Flatten(chunks)))
    decreases |chunks|
  {
    hide Chunk;
    assert Chunk(cfg, f, "") == f by { NothingRead(cfg, f); }
    if chunks != [] {
      FlattenNext(chunks, 0);
      var g := Chunk(cfg, f, chunks[0]);
      ChunkSplit(cfg, f, chunks[0], Flatten(chunks[1..]));
      if !g.state.flags.error {
        ChunkingIrrelevant(cfg, g, chunks[1..]);
      }
    }
  }

  lemma OneRead(cfg: Config, f: Session, a: string)
    requires a != "" && !f.state.complete
    ensures Chunk(cfg, f, a).state == Run(cfg, f.state.(seenData := true), a)
  {
    hide SessionStep, Run;
  }

  lemma NothingRead(cfg: Config, f: Session)
    ensures Chunk(cfg, f, "") == f
  {
  }
}
