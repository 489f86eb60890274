/** Which of the files of a body end up on disk in full, given a limit on their number. */
module MultipartFiles {
  import opened Wrappers
  import opened Multipart
  import opened MultipartContent

  /** The bytes in front of the boundary that ends the part. */
  function Data(f: Field): string { f.data + "\r\n" }

  function IsFile(f: Field): nat {
    if f.filename == None then 0 else 1
  }

  function Files(fields: seq<Field>): nat {
    if fields == [] then 0 else Files(fields[..|fields| - 1]) + IsFile(fields[|fields| - 1])
  }

  /** Where f stands behind earlier fields. */
  function PlaceOf(cfg: Config, earlier: seq<Field>, f: Field): Place
    decreases |earlier|, 1
  {
    Place(Opened(cfg, earlier), Exceeded(cfg, earlier), FirstBuffer(Data(f)))
  }

  function Opened(cfg: Config, fields: seq<Field>): nat
    decreases |fields|, 0
  {
    if fields == [] then 0
    else
      var n := |fields| - 1;
      OpenedBy(cfg, fields[n], PlaceOf(cfg, fields[..n], fields[n]), Data(fields[n]))
  }

  predicate Exceeded(cfg: Config, fields: seq<Field>)
    decreases |fields|, 0
  {
    if fields == [] then false
    else
      var n := |fields| - 1;
      ExceededBy(cfg, fields[n], PlaceOf(cfg, fields[..n], fields[n]), Data(fields[n]))
  }

  /** What the file of field number i holds in the end. */
  function FileAt(cfg: Config, fields: seq<Field>, i: nat): Option<string>
    requires i < |fields|
  {
    OnDisk(cfg, fields[i], PlaceOf(cfg, fields[..i], fields[i]), Data(fields[i]))
  }

  // ---------- one file ----------

  predicate Unbroken(d: string) {
    forall i :: 0 <= i < |d| ==> d[i] != '\n'
  }

  /** Data that the parser has taken before it looks at the limit a second time. */
  predicate OneBuffer(d: string) {
    Unbroken(d) && (|d| < 4096 || (|d| == 4096 && d[4095] != '\r'))
  }

  lemma DataBytes(f: Field)
    ensures var t := Data(f);
            && |t| == |f.data| + 2 && t[|f.data|] == '\r' && t[|f.data| + 1] == '\n' && t[..|f.data|] == f.data
            && forall i :: 0 <= i < |f.data| ==> t[i] == f.data[i]
  {
  }

  lemma FirstLineFeed(f: Field)
    ensures var n := LineFeed(Data(f));
            if Unbroken(f.data) then n == |f.data| + 1 else n < |f.data| && f.data[n] == '\n'
  {
    hide Data;
    DataBytes(f);
    var t, n := Data(f), LineFeed(Data(f));
    if Unbroken(f.data) {
      assert t[|f.data| + 1] == '\n';
      assert forall i :: 0 <= i < |f.data| ==> t[i] == f.data[i];
    } else {
      var i :| 0 <= i < |f.data| && f.data[i] == '\n';
      assert t[i] == '\n';
    }
  }

  /** The first buffer is all of the content exactly when the content takes one buffer. */
  lemma FirstIsAll(f: Field)
    ensures Body(FirstBuffer(Data(f))) == f.data <==> OneBuffer(f.data)
  {
    hide Data, LineFeed, Unbroken;
    DataBytes(f);
    FirstLineFeed(f);
    var t, d, n := Data(f), f.data, LineFeed(Data(f));
    var w := FirstBuffer(t);
    if !Unbroken(d) {
      if n < BUF_SIZE {
        assert w[|w| - 1] == '\n' && |Body(w)| < |d|;
      } else {
        assert |Body(w)| < |d|;
      }
    } else if |d| + 2 <= BUF_SIZE {
      assert w == t && w[|w| - 1] == '\n' && w[|w| - 2] == '\r' && BreakLen(w) == 2;
    } else if |d| < BUF_SIZE {
      assert w == d;
      assert Body(w) == w by { NoBreak(w); }
    } else if d[BUF_SIZE - 1] == '\r' {
      assert |w| == BUF_SIZE - 1;
    } else if |d| == BUF_SIZE {
      assert w == d;
      assert Body(w) == w by { NoBreak(w); }
    } else {
      assert |w| < |d|;
    }
  }

  lemma NoBreak(w: string)
    requires Unbroken(w)
    ensures Body(w) == w
  {
  }

  /** The first buffer is all of the data exactly when even the line break fits. */
  lemma FirstIsWhole(f: Field)
    ensures FirstBuffer(Data(f)) == Data(f) <==> Unbroken(f.data) && |f.data| + 2 <= BUF_SIZE
  {
    hide Data, Unbroken;
    DataBytes(f);
    FirstLineFeed(f);
    var t, n := Data(f), LineFeed(Data(f));
    if n < BUF_SIZE {
      assert t[..|t|] == t;
    }
  }

  // ---------- all files ----------

  /** The content of the last file. */
  function LastFile(fields: seq<Field>): string
    requires Files(fields) > 0
  {
    var f := fields[|fields| - 1];
    if f.filename != None then f.data else LastFile(fields[..|fields| - 1])
  }

  /** The limit leaves room for every file, and for all of the last one. */
  predicate FilesFit(cfg: Config, fields: seq<Field>) {
    || Files(fields) == 0
    || Files(fields) < cfg.fileLimit
    || (Files(fields) == cfg.fileLimit && OneBuffer(LastFile(fields)))
  }

  /** The limit is never looked at behind the last file that may be opened. */
  predicate LimitUnseen(cfg: Config, fields: seq<Field>) {
    || Files(fields) == 0
    || Files(fields) < cfg.fileLimit
    || (Files(fields) == cfg.fileLimit && var d := LastFile(fields); Unbroken(d) && |d| + 2 <= 4096)
  }

  /** Files are opened as long as the limit is not reached. */
  lemma {:induction false} OpenedExact(cfg: Config, fields: seq<Field>)
    requires cfg.extractFiles
    ensures Opened(cfg, fields) == if Files(fields) <= cfg.fileLimit then Files(fields)
                                   else if cfg.fileLimit > 0 then cfg.fileLimit else 0
    decreases |fields|
  {
    hide Data, FirstBuffer, Body;
    if fields != [] {
      var n := |fields| - 1;
      OpenedExact(cfg, fields[..n]);
      DataBytes(fields[n]);
    }
  }

  predicate Whole(cfg: Config, fields: seq<Field>, i: nat)
    requires i < |fields|
  {
    fields[i].filename != None ==> FileAt(cfg, fields, i) == Some(fields[i].data)
  }

  lemma LastWhole(cfg: Config, fields: seq<Field>)
    requires cfg.extractFiles && fields != [] && fields[|fields| - 1].filename != None
    ensures var n := Files(fields[..|fields| - 1]) + 1;
            Whole(cfg, fields, |fields| - 1) <==>
              n < cfg.fileLimit || (n == cfg.fileLimit && OneBuffer(fields[|fields| - 1].data))
  {
    hide Data, FirstBuffer, Body, OneBuffer;
    var n := |fields| - 1;
    OpenedExact(cfg, fields[..n]);
    DataBytes(fields[n]);
    FirstIsAll(fields[n]);
    DataBody(fields[n]);
  }

  lemma DataBody(f: Field)
    ensures Body(Data(f)) == f.data && Break(Data(f)) == "\r\n"
  {
    var t := Data(f);
    assert t[..|t| - 2] == f.data;
  }

  /** Every file is on disk byte for byte if and only if there is room for all of them. */
  lemma {:induction false} AllWhole(cfg: Config, fields: seq<Field>)
    requires cfg.extractFiles
    ensures (forall i :: 0 <= i < |fields| ==> Whole(cfg, fields, i)) <==> FilesFit(cfg, fields)
    decreases |fields|
  {
    hide FileAt, OneBuffer;
    if fields != [] {
      var n := |fields| - 1;
      AllWhole(cfg, fields[..n]);
      forall i | 0 <= i < n ensures Whole(cfg, fields, i) == Whole(cfg, fields[..n], i) {
        WholeBefore(cfg, fields, i);
      }
      if fields[n].filename != None { LastWhole(cfg, fields); }
    }
  }

  lemma WholeBefore(cfg: Config, fields: seq<Field>, i: nat)
    requires i < |fields| - 1
    ensures Whole(cfg, fields, i) == Whole(cfg, fields[..|fields| - 1], i)
  {
    assert fields[..|fields| - 1][..i] == fields[..i];
  }

  /** The flag for too many files goes up if and only if some buffer comes when the limit is used up. */
  lemma {:induction false} ExceededExact(cfg: Config, fields: seq<Field>)
    ensures Exceeded(cfg, fields) <==> cfg.extractFiles && !LimitUnseen(cfg, fields)
    decreases |fields|
  {
    hide Data, FirstBuffer, Unbroken, Opened;
    if fields != [] {
      var n := |fields| - 1;
      ExceededExact(cfg, fields[..n]);
      if Extracted(cfg, fields[n]) {
        OpenedExact(cfg, fields[..n]);
        DataBytes(fields[n]);
        FirstIsWhole(fields[n]);
      }
    }
  }
}
