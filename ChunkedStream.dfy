/**
 * `stream_and_delete` (main.py:188-197): open the downloaded file, hand it to the client
 * 1 MiB at a time until a read comes back empty, then remove the file.
 *
 * The file system is a map from path to contents, the open file a reader object with a
 * position that each `read` advances.  The client is represented by how many chunks it
 * takes before it goes away, if it does.
 */
module ChunkedStream {
  import opened Wrappers

  newtype byte = x: int | 0 <= x < 256

  /** `1024 * 1024`, the size of each `f.read`. */
  const ChunkSize: nat := 1048576

  function Min(a: nat, b: nat): nat {
    if a <= b then a else b
  }

  /**
   * The chunks the loop yields for `data`, as a specification: a first read of up to
   * `ChunkSize` bytes, then the chunks of what is left, and nothing once the data is empty.
   */
  function Chunks(data: seq<byte>): seq<seq<byte>>
    decreases |data|
  {
    if data == [] then [] else
    var n := Min(ChunkSize, |data|);
    [data[..n]] + Chunks(data[n..])
  }

  /** All chunks put back together. */
  function Concat(chunks: seq<seq<byte>>): seq<byte> {
    if chunks == [] then [] else chunks[0] + Concat(chunks[1..])
  }

  /** The chunks put back together are exactly the file's bytes. */
  lemma {:induction false} ChunksConcat(data: seq<byte>)
    ensures Concat(Chunks(data)) == data
    decreases |data|
  {
    if data != [] {
      var n := Min(ChunkSize, |data|);
      ChunksConcat(data[n..]);
      assert Chunks(data)[1..] == Chunks(data[n..]);
      assert data[..n] + data[n..] == data;
    }
  }

  /**
   * Every chunk is non-empty and at most `ChunkSize` bytes, every chunk but the last is
   * exactly `ChunkSize` bytes, and there are as many chunks as whole or partial
   * `ChunkSize` blocks in the file.
   */
  lemma {:induction false} ChunkSizes(data: seq<byte>)
    ensures |Chunks(data)| == (|data| + ChunkSize - 1) / ChunkSize
    ensures forall i :: 0 <= i < |Chunks(data)| ==> 0 < |Chunks(data)[i]| <= ChunkSize
    ensures forall i :: 0 <= i < |Chunks(data)| - 1 ==> |Chunks(data)[i]| == ChunkSize
    decreases |data|
  {
    if data != [] {
      var n := Min(ChunkSize, |data|);
      ChunkSizes(data[n..]);
      var cs := Chunks(data);
      assert cs[1..] == Chunks(data[n..]);
      forall i | 1 <= i < |cs|
        ensures 0 < |cs[i]| <= ChunkSize
        ensures i < |cs| - 1 ==> |cs[i]| == ChunkSize
      {
        assert cs[i] == Chunks(data[n..])[i - 1];
      }
      if n < |data| {
        assert |data[n..]| == |data| - ChunkSize;
      }
    }
  }

  /** The `i`-th chunk is the `i`-th block of `ChunkSize` bytes, cut short at the end of the file. */
  lemma {:induction false} ChunkIsBlock(data: seq<byte>, i: nat)
    requires i < |Chunks(data)|
    ensures i * ChunkSize < |data|
    ensures Chunks(data)[i] == data[i * ChunkSize..Min((i + 1) * ChunkSize, |data|)]
    decreases |data|
  {
    var n := Min(ChunkSize, |data|);
    if i > 0 {
      assert Chunks(data)[i] == Chunks(data[n..])[i - 1];
      ChunkIsBlock(data[n..], i - 1);
      assert n == ChunkSize;
    }
  }

  /** The open file of `open(final_path, "rb")`: its bytes and the position of the next read. */
  class Reader {
    const content: seq<byte>
    var pos: nat

    ghost predicate Valid()
      reads this
    {
      pos <= |content|
    }

    constructor (content: seq<byte>)
      ensures this.content == content && pos == 0 && Valid()
    {
      this.content := content;
      pos := 0;
    }

    /** `f.read(n)`: up to `n` bytes from the current position, fewer only at the end of the file. */
    method Read(n: nat) returns (chunk: seq<byte>)
      requires Valid()
      modifies this
      ensures Valid()
      ensures pos == Min(old(pos) + n, |content|)
      ensures chunk == content[old(pos)..pos]
    {
      var end := Min(pos + n, |content|);
      chunk := content[pos..end];
      pos := end;
    }
  }

  /**
   * The generator's loop, `while chunk := f.read(1024 * 1024): yield chunk`, for a client
   * that asks for `limit` chunks before it closes the stream (None: it asks until the
   * stream ends).  Each request resumes the generator, which reads once and either yields
   * the chunk or, on an empty read, leaves the loop; a client that stops asking leaves the
   * generator suspended at its `yield` and the loop unfinished.  `finished` tells whether
   * the loop ran to its end.  The chunks handed out are the first ones of `Chunks(data)`,
   * all of them when the loop finished.
   */
  method ReadChunks(data: seq<byte>, limit: Option<nat>) returns (chunks: seq<seq<byte>>, finished: bool)
    ensures finished <==> limit.None? || |Chunks(data)| < limit.value
    ensures finished ==> chunks == Chunks(data)
    ensures !finished ==> chunks == Chunks(data)[..limit.value]
  {
    chunks := [];
    if limit == Some(0) {
      return chunks, false;
    }
    var f := new Reader(data);
    var start := 0;
    var chunk := f.Read(ChunkSize);
    while chunk != []
      invariant f.Valid() && f.content == data
      invariant start <= f.pos && f.pos == Min(start + ChunkSize, |data|)
      invariant chunk == data[start..f.pos]
      invariant StreamedSoFar(data, chunks, start)
      invariant limit.Some? ==> |chunks| < limit.value
      decreases |data| - start
    {
      Yield(data, chunks, start);
      chunks := chunks + [chunk];
      start := f.pos;
      if limit.Some? && |chunks| == limit.value {
        return chunks, false;
      }
      chunk := f.Read(ChunkSize);
    }
    Exhausted(data, chunks, start);
    finished := true;
  }

  /** `chunks` are the chunks that come before the data from `start` on. */
  ghost predicate StreamedSoFar(data: seq<byte>, chunks: seq<seq<byte>>, start: nat) {
    start <= |data| && chunks + Chunks(data[start..]) == Chunks(data)
  }

  /** Yielding the chunk read at `start` moves the stream on to the end of that chunk. */
  lemma Yield(data: seq<byte>, chunks: seq<seq<byte>>, start: nat)
    requires StreamedSoFar(data, chunks, start) && start < |data|
    ensures var end := Min(start + ChunkSize, |data|);
            StreamedSoFar(data, chunks + [data[start..end]], end) &&
            Chunks(data)[..|chunks| + 1] == chunks + [data[start..end]]
  {
    var end := Min(start + ChunkSize, |data|);
    var next := data[start..end];
    var later := Chunks(data[end..]);
    NextChunk(data, start);
    assert Chunks(data) == chunks + ([next] + later);
    assert chunks + ([next] + later) == (chunks + [next]) + later;
    PrefixOf(chunks + [next], later, Chunks(data));
  }

  /** Once the stream has reached the end of the data, every chunk has been handed out. */
  lemma Exhausted(data: seq<byte>, chunks: seq<seq<byte>>, start: nat)
    requires StreamedSoFar(data, chunks, start) && start == |data|
    ensures chunks == Chunks(data)
  {
  }

  lemma PrefixOf<T>(front: seq<T>, back: seq<T>, whole: seq<T>)
    requires front + back == whole
    ensures whole[..|front|] == front
  {
  }

  /** Reading from `start` gives the next chunk of the ones still to come. */
  lemma NextChunk(data: seq<byte>, start: nat)
    requires start < |data|
    ensures var end := Min(start + ChunkSize, |data|);
            Chunks(data[start..]) == [data[start..end]] + Chunks(data[end..])
  {
    var end := Min(start + ChunkSize, |data|);
    var rest := data[start..];
    var n := Min(ChunkSize, |rest|);
    assert rest[..n] == data[start..end];
    assert rest[n..] == data[end..];
  }

  /** The downloads directory: the files present, by path. */
  class Downloads {
    var files: map<string, seq<byte>>

    constructor (files: map<string, seq<byte>>)
      ensures this.files == files
    {
      this.files := files;
    }

    /**
     * `stream_and_delete`: stream the file at `path` to a client that asks for `limit`
     * chunks (until the end when None), then remove the file, but only if the loop ran to
     * its end.  A client that asks for nothing never starts the generator.  Otherwise a
     * missing file makes `open` fail: nothing is streamed (None) and nothing changes.
     */
    method StreamAndDelete(path: string, limit: Option<nat>) returns (sent: Option<seq<seq<byte>>>)
      modifies this
      ensures limit == Some(0) ==> sent == Some([]) && files == old(files)
      ensures limit != Some(0) && path !in old(files) ==> sent.None? && files == old(files)
      ensures path in old(files) && (limit.None? || |Chunks(old(files)[path])| < limit.value) ==>
                sent == Some(Chunks(old(files)[path])) && files == old(files) - {path}
      ensures path in old(files) && limit.Some? && limit.value <= |Chunks(old(files)[path])| ==>
                sent == Some(Chunks(old(files)[path])[..limit.value]) && files == old(files)
    {
      if limit == Some(0) {
        return Some([]);
      }
      if path !in files {
        return None;
      }
      var chunks, finished := ReadChunks(files[path], limit);
      if finished {
        files := files - {path};
      }
      sent := Some(chunks);
    }
  }
}
