/** The request body store of apache2/msc_reqbody.c: chunks in memory, or a
    temporary file once the body is too large. */
module RequestBody {
  import opened Bytes
  import opened Wrappers
  import opened Sequences

  const CHUNK_CAPACITY := 8192

  // All chunks are full, except for the current one, which is the last and neither empty nor full.
  predicate Layout(chunks: seq<seq<Byte>>, current: bool) {
    && (current ==> chunks != [] && 0 < |chunks[|chunks| - 1]| < CHUNK_CAPACITY)
    && (forall i :: 0 <= i < (if current then |chunks| - 1 else |chunks|) ==> |chunks[i]| == CHUNK_CAPACITY)
  }

  lemma NotEmpty(chunks: seq<seq<Byte>>, current: bool, i: nat)
    requires i < |chunks|
    ensures Layout(chunks, current) ==> |chunks[i]| > 0
  {
  }

  lemma {:induction false} FullLength(chunks: seq<seq<Byte>>)
    requires forall i :: 0 <= i < |chunks| ==> |chunks[i]| == CHUNK_CAPACITY
    ensures |Flatten(chunks)| == CHUNK_CAPACITY * |chunks|
  {
    if chunks != [] {
      FullLength(chunks[..|chunks| - 1]);
    }
  }

  /** The chunks are as many as the bytes need. */
  lemma LayoutCount(chunks: seq<seq<Byte>>, current: bool)
    requires Layout(chunks, current)
    ensures |chunks| == (|Flatten(chunks)| + 8191) / 8192
    ensures current <==> |Flatten(chunks)| % 8192 != 0
  {
    if current {
      FullLength(chunks[..|chunks| - 1]);
    } else {
      FullLength(chunks);
    }
  }

  // What follows byte off of chunk pos.
  function Rest(chunks: seq<seq<Byte>>, pos: nat, off: nat): seq<Byte>
    requires pos <= |chunks| && (off > 0 ==> pos < |chunks| && off < |chunks[pos]|)
  {
    if pos == |chunks| then [] else chunks[pos][off..] + Flatten(chunks[pos + 1..])
  }

  lemma RestNext(chunks: seq<seq<Byte>>, pos: nat, off: nat)
    requires pos < |chunks| && (off > 0 ==> off < |chunks[pos]|)
    ensures Rest(chunks, pos, off) == chunks[pos][off..] + Rest(chunks, pos + 1, 0)
  {
    if pos + 1 < |chunks| {
      FlattenNext(chunks, pos + 1);
    }
  }

  lemma RestWithin(chunks: seq<seq<Byte>>, pos: nat, off: nat, n: nat)
    requires pos < |chunks| && off + n < |chunks[pos]|
    ensures Rest(chunks, pos, off) == chunks[pos][off..off + n] + Rest(chunks, pos, off + n)
  {
    hide Flatten;
    var c := chunks[pos];
    assert c[off..] == c[off..off + n] + c[off + n..];
    Regroup(c[off..off + n], c[off + n..], Flatten(chunks[pos + 1..]));
  }

  datatype Storage = Memory | Disk

  class Body {
    const spillToDisk: bool
    const forceBuffering: bool
    const inMemoryLimit: nat
    const limit: nat // of the body length reported in the end, 0 for none
    var storage: Storage
    var chunks: seq<seq<Byte>>
    var current: bool // the last chunk is the one being filled
    var length: nat
    var file: seq<Byte>
    ghost var merged: bool // the chunks were replaced by a single one
    var chunkPosition: nat
    var chunkOffset: nat
    var filePosition: nat

    predicate Spills() {
      spillToDisk && !forceBuffering
    }

    ghost predicate Valid()
      reads this
    {
      && (storage == Memory && !merged ==>
            Layout(chunks, current) && length == |Flatten(chunks)| && (Spills() ==> length <= inMemoryLimit))
      && (merged ==> storage == Memory && |chunks| == 1)
    }

    function Contents(): seq<Byte>
      reads this
    {
      if storage == Memory then Flatten(chunks) else file
    }

    constructor (spillToDisk: bool, forceBuffering: bool, inMemoryLimit: nat, limit: nat)
      ensures Valid() && Contents() == [] && storage == Memory && !merged && file == []
      ensures this.spillToDisk == spillToDisk && this.forceBuffering == forceBuffering
      ensures this.inMemoryLimit == inMemoryLimit && this.limit == limit
    {
      this.spillToDisk, this.forceBuffering, this.inMemoryLimit, this.limit :=
        spillToDisk, forceBuffering, inMemoryLimit, limit;
      storage, chunks, current, length, file, merged := Memory, [], false, 0, [], false;
      chunkPosition, chunkOffset, filePosition := 0, 0, 0;
    }

    // ---------- storing ----------

    method StoreDisk(data: seq<Byte>)
      modifies `file
      ensures file == old(file) + data
    {
      file := file + data;
    }

    /** Moves what is in memory to the file. */
    method SpillToFile()
      requires Valid() && storage == Memory && !merged && file == []
      modifies this
      ensures Valid() && storage == Disk && !merged && file == old(Flatten(chunks)) && chunks == []
    {
      storage := Disk;
      var i := 0;
      while i < |chunks|
        invariant i <= |chunks| && chunks == old(chunks) && storage == Disk && !merged
        invariant file == Flatten(chunks[..i])
      {
        StoreDisk(chunks[i]);
        FlattenNext(chunks, i);
        i := i + 1;
      }
      assert chunks[..i] == chunks;
      chunks, current := [], false;
    }

    /** Puts as much into the current chunk as it takes, or into a new one. */
    method Fill(bucket: seq<Byte>) returns (copyLength: nat)
      requires Layout(chunks, current) && bucket != []
      modifies `chunks, `current
      ensures Layout(chunks, current) && 0 < copyLength <= |bucket|
      ensures Flatten(chunks) == old(Flatten(chunks)) + bucket[..copyLength]
    {
      if !current {
        FlattenSnoc(chunks, []);
        chunks := chunks + [[]];
      }
      var n := |chunks| - 1;
      var last := chunks[n];
      copyLength := CHUNK_CAPACITY - |last|;
      if |bucket| < CHUNK_CAPACITY - |last| {
        copyLength := |bucket|;
        current := true;
      } else {
        current := false;
      }
      FlattenSnoc(chunks[..n], last + bucket[..copyLength]);
      chunks := chunks[..n] + [last + bucket[..copyLength]];
    }

    method StoreMemory(data: seq<Byte>)
      requires Valid() && storage == Memory && !merged && file == []
      modifies this
      ensures Valid() && !merged && Contents() == old(Contents()) + data
      ensures storage == Disk <==> spillToDisk && !forceBuffering && |old(Contents())| + |data| > inMemoryLimit
      ensures storage == Memory ==> file == []
    {
      if spillToDisk && !forceBuffering && length + |data| > inMemoryLimit {
        SpillToFile();
        StoreDisk(data);
        return;
      }
      var bucketOffset, bucketLeft := 0, |data|;
      while bucketLeft > 0
        invariant bucketOffset <= |data| && bucketLeft == |data| - bucketOffset
        invariant storage == Memory && !merged && file == [] && length == old(length)
        invariant Layout(chunks, current)
        invariant Flatten(chunks) == old(Flatten(chunks)) + data[..bucketOffset]
        decreases bucketLeft
      {
        var n := Fill(data[bucketOffset..]);
        assert data[..bucketOffset + n] == data[..bucketOffset] + data[bucketOffset..][..n];
        bucketOffset := bucketOffset + n;
        bucketLeft := bucketLeft - n;
      }
      assert data[..|data|] == data;
      length := length + |data|;
    }

    method Store(data: seq<Byte>)
      requires Valid() && !merged && (storage == Memory ==> file == [])
      modifies this
      ensures Valid() && !merged && (storage == Memory ==> file == [])
      ensures Contents() == old(Contents()) + data
      ensures storage == Disk <==>
              old(storage) == Disk || (spillToDisk && !forceBuffering && |old(Contents())| + |data| > inMemoryLimit)
    {
      if storage == Memory {
        StoreMemory(data);
      } else {
        StoreDisk(data);
      }
    }

    /** Replaces the chunks by a single one. */
    method EndRaw() returns (ok: bool)
      requires Valid() && storage == Memory && !merged
      modifies this
      ensures ok && Valid() && merged && storage == Memory && Contents() == old(Contents())
      ensures length == if 0 < limit < |Contents()| then limit else |Contents()|
    {
      var buffer := [];
      var i := 0;
      while i < |chunks|
        invariant i <= |chunks| && buffer == Flatten(chunks[..i])
        modifies {}
      {
        FlattenNext(chunks, i);
        if |buffer| + |chunks[i]| <= length {
          buffer := buffer + chunks[i];
        } else {
          return false;
        }
        i := i + 1;
      }
      assert chunks[..i] == chunks;
      FlattenSnoc([], buffer);
      assert [] + [buffer] == [buffer];
      chunks, merged := [buffer], true;
      if limit > 0 && limit < length {
        length := limit;
      }
      ok := true;
    }

    // ---------- retrieving ----------

    /** What has not been retrieved yet. */
    function Remaining(): seq<Byte>
      requires Positioned()
      reads this
    {
      if storage == Disk then file[filePosition..]
      else Rest(chunks, chunkPosition, chunkOffset)
    }

    predicate Positioned()
      reads this
    {
      && filePosition <= |file| && chunkPosition <= |chunks|
      && (chunkOffset > 0 ==> chunkPosition < |chunks| && chunkOffset < |chunks[chunkPosition]|)
    }

    method RetrieveStart()
      requires Valid()
      modifies `chunkPosition, `chunkOffset, `filePosition
      ensures Valid() && Positioned() && chunkOffset == 0 && Remaining() == Contents()
    {
      chunkPosition, chunkOffset, filePosition := 0, 0, 0;
      if chunks != [] {
        FlattenNext(chunks, 0);
        assert chunks[0..] == chunks;
      }
    }

    /** One piece of the body, of at most nbytes bytes unless nbytes is -1. */
    method Retrieve(nbytes: int) returns (rc: int, chunk: Option<seq<Byte>>)
      requires Valid() && Positioned() && (nbytes > 0 || (nbytes == -1 && chunkOffset == 0))
      modifies `chunkPosition, `chunkOffset, `filePosition
      ensures Valid() && Positioned() && (nbytes == -1 ==> chunkOffset == 0)
      ensures old(Remaining()) == (if chunk.Some? then chunk.value else []) + Remaining()
      ensures rc == 0 || rc == 1
      ensures rc == 0 ==> Remaining() == []
      ensures nbytes > 0 && chunk.Some? ==> |chunk.value| <= nbytes
      ensures rc == 1 ==> chunk.Some? && |chunk.value| > 0
    {
      if storage == Memory {
        rc, chunk := RetrieveMemory(nbytes);
      } else {
        var n := CHUNK_CAPACITY;
        if nbytes != -1 && n > nbytes {
          n := nbytes;
        }
        var end := if filePosition + n <= |file| then filePosition + n else |file|;
        chunk := Some(file[filePosition..end]);
        filePosition := end;
        rc := if |chunk.value| == 0 then 0 else 1;
      }
    }

    method RetrieveMemory(nbytes: int) returns (rc: int, chunk: Option<seq<Byte>>)
      requires Valid() && Positioned() && (nbytes > 0 || (nbytes == -1 && chunkOffset == 0)) && storage == Memory
      modifies `chunkPosition, `chunkOffset
      ensures Positioned() && (nbytes == -1 ==> chunkOffset == 0)
      ensures old(Remaining()) == (if chunk.Some? then chunk.value else []) + Remaining()
      ensures rc == if chunkPosition >= |chunks| then 0 else 1
      ensures nbytes > 0 && chunk.Some? ==> |chunk.value| <= nbytes
      ensures rc == 1 ==> chunk.Some? && |chunk.value| > 0
    {
      if chunkPosition >= |chunks| {
        return 0, None;
      }
      hide Rest, Flatten, Layout;
      var c := chunks[chunkPosition];
      NotEmpty(chunks, current, chunkPosition);
      if nbytes < 0 {
        RestNext(chunks, chunkPosition, 0);
        assert c[0..] == c;
        chunk := Some(c);
        chunkPosition := chunkPosition + 1;
        chunkOffset := 0;
      } else if |c| - chunkOffset <= nbytes {
        RestNext(chunks, chunkPosition, chunkOffset);
        chunk := Some(c[chunkOffset..]);
        chunkPosition := chunkPosition + 1;
        chunkOffset := 0;
      } else {
        RestWithin(chunks, chunkPosition, chunkOffset, nbytes);
        chunk := Some(c[chunkOffset..chunkOffset + nbytes]);
        chunkOffset := chunkOffset + nbytes;
      }
      rc := if chunkPosition >= |chunks| then 0 else 1;
    }
  }

  // ---------- whole bodies ----------

  /** Retrieves until there is no more, with a limit of its own for every piece, or without any. */
  method RetrieveAll(body: Body, limits: nat -> int) returns (r: seq<Byte>)
    requires body.Valid()
    requires (forall i :: limits(i) > 0) || (forall i :: limits(i) == -1)
    modifies body`chunkPosition, body`chunkOffset, body`filePosition
    ensures body.Valid() && r == body.Contents() == old(body.Contents())
  {
    hide Rest, Flatten, Layout;
    body.RetrieveStart();
    r := [];
    var i := 0;
    var rc := 1;
    while rc == 1
      invariant rc == 0 || rc == 1
      invariant body.Valid() && body.Positioned() && body.Contents() == old(body.Contents())
      invariant limits(i) == -1 ==> body.chunkOffset == 0
      invariant r + body.Remaining() == old(body.Contents())
      invariant rc == 0 ==> body.Remaining() == []
      decreases |body.Remaining()|, rc
    {
      ghost var before, rest := r, body.Remaining();
      var chunk;
      rc, chunk := body.Retrieve(limits(i));
      if chunk.Some? {
        r := r + chunk.value;
        Regroup(before, chunk.value, body.Remaining());
      }
      i := i + 1;
    }
  }

  /** Storing any buffers: the content is their concatenation. It is on disk if and
      only if spilling is on, buffering is not forced, and the content exceeds
      the limit in memory; otherwise it is in chunks of exactly 8192 bytes, the
      last one aside, and spilling never let them exceed the limit. */
  method StoreAll(spillToDisk: bool, forceBuffering: bool, inMemoryLimit: nat, limit: nat, buffers: seq<seq<Byte>>)
    returns (body: Body)
    ensures fresh(body) && body.Valid() && !body.merged && body.Contents() == Flatten(buffers)
    ensures body.limit == limit
    ensures body.storage == Disk <==> spillToDisk && !forceBuffering && |Flatten(buffers)| > inMemoryLimit
    ensures body.storage == Memory ==>
              && body.file == [] && Flatten(body.chunks) == Flatten(buffers)
              && forall i :: 0 <= i < |body.chunks| ==>
                   if i < |body.chunks| - 1 then |body.chunks[i]| == 8192 else 0 < |body.chunks[i]| <= 8192
  {
    body := new Body(spillToDisk, forceBuffering, inMemoryLimit, limit);
    var i := 0;
    while i < |buffers|
      invariant i <= |buffers| && fresh(body) && body.Valid() && !body.merged && (body.storage == Memory ==> body.file == [])
      invariant body.Contents() == Flatten(buffers[..i])
      invariant body.storage == Disk <==> spillToDisk && !forceBuffering && |Flatten(buffers[..i])| > inMemoryLimit
    {
      FlattenNext(buffers, i);
      body.Store(buffers[i]);
      i := i + 1;
    }
    assert buffers[..i] == buffers;
  }

  /** Whatever the buffers, the limits and the spilling, what is retrieved is what was stored. */
  method StoreAndRetrieve(spillToDisk: bool, forceBuffering: bool, inMemoryLimit: nat, limit: nat,
                          buffers: seq<seq<Byte>>, merge: bool, limits: nat -> int) returns (r: seq<Byte>)
    requires (forall i :: limits(i) > 0) || (forall i :: limits(i) == -1)
    ensures r == Flatten(buffers)
  {
    var body := StoreAll(spillToDisk, forceBuffering, inMemoryLimit, limit, buffers);
    if merge && body.storage == Memory {
      var _ := body.EndRaw();
    }
    r := RetrieveAll(body, limits);
  }
}
