/**
 * File delivery (app.py:103-126): the local file system the downloads
 * land in, the generator that reads a file in chunks of at most 8192
 * bytes, and the attachment name shown to the browser.
 */
module Delivery {
  import opened Text

  newtype Byte = b: int | 0 <= b < 256

  /** The argument of `f.read` in the streaming loop. */
  const ChunkSize: nat := 8192

  /** The bytes of the chunks, one after the other. */
  function Flatten(chunks: seq<seq<Byte>>): seq<Byte> {
    if chunks == [] then [] else chunks[0] + Flatten(chunks[1..])
  }

  /**
   * The chunks `f.read(8192)` yields on a regular file until it returns
   * the empty read: every read takes what is left, up to 8192 bytes.
   */
  function Chunks(data: seq<Byte>): seq<seq<Byte>>
    decreases |data|
  {
    if data == [] then []
    else
      var n := if |data| < ChunkSize then |data| else ChunkSize;
      [data[..n]] + Chunks(data[n..])
  }

  /** The chunks put back together are the file. */
  lemma {:induction false} ChunksFlatten(data: seq<Byte>)
    ensures Flatten(Chunks(data)) == data
    decreases |data|
  {
    if data != [] {
      var n := if |data| < ChunkSize then |data| else ChunkSize;
      ChunksFlatten(data[n..]);
      assert Chunks(data)[1..] == Chunks(data[n..]);
      assert data[..n] + data[n..] == data;
    }
  }

  /** No chunk is empty and none is longer than 8192 bytes. */
  lemma {:induction false} ChunksBounded(data: seq<Byte>)
    ensures forall i :: 0 <= i < |Chunks(data)| ==> 0 < |Chunks(data)[i]| <= ChunkSize
    decreases |data|
  {
    if data != [] {
      var n := if |data| < ChunkSize then |data| else ChunkSize;
      ChunksBounded(data[n..]);
      var r := Chunks(data);
      forall i | 0 <= i < |r| ensures 0 < |r[i]| <= ChunkSize {
        if i > 0 { assert r[i] == Chunks(data[n..])[i - 1]; }
      }
    }
  }

  /** Every chunk but the last is full, so there are `ceil(|data| / 8192)` of them. */
  lemma {:induction false} ChunksAreFull(data: seq<Byte>)
    ensures |Chunks(data)| == (|data| + ChunkSize - 1) / ChunkSize
    ensures forall i :: 0 <= i < |Chunks(data)| - 1 ==> |Chunks(data)[i]| == ChunkSize
    decreases |data|
  {
    if |data| > ChunkSize {
      ChunksAreFull(data[ChunkSize..]);
      var r := Chunks(data);
      assert r == [data[..ChunkSize]] + Chunks(data[ChunkSize..]);
      forall i | 0 <= i < |r| - 1 ensures |r[i]| == ChunkSize {
        if i > 0 { assert r[i] == Chunks(data[ChunkSize..])[i - 1]; }
      }
    }
  }

  /** `f.read(n)` on a file at offset `pos`: what is left, up to `n` bytes. */
  function ReadAt(data: seq<Byte>, pos: nat, n: nat): (chunk: seq<Byte>)
    requires pos <= |data|
    ensures |chunk| == if |data| - pos < n then |data| - pos else n
    ensures pos + |chunk| <= |data| && chunk == data[pos..pos + |chunk|]
    ensures n > 0 ==> (chunk == [] <==> pos == |data|)
  {
    if |data| - pos < n then data[pos..] else data[pos..pos + n]
  }

  lemma AppendAssociates<T>(a: seq<T>, b: seq<T>, c: seq<T>)
    ensures (a + b) + c == a + (b + c)
  {
  }

  /** One read takes the first chunk off what is left. */
  lemma ChunksStep(data: seq<Byte>, pos: nat, chunk: seq<Byte>)
    requires pos < |data| && chunk == ReadAt(data, pos, ChunkSize)
    ensures Chunks(data[pos..]) == [chunk] + Chunks(data[pos + |chunk|..])
  {
    var rest := data[pos..];
    var n := if |rest| < ChunkSize then |rest| else ChunkSize;
    assert chunk == rest[..n];
    assert rest[n..] == data[pos + |chunk|..];
  }

  /** The `while chunk := f.read(8192): yield chunk` loop: the chunks it yields, in order. */
  method StreamFile(data: seq<Byte>) returns (chunks: seq<seq<Byte>>)
    ensures chunks == Chunks(data)
    ensures Flatten(chunks) == data
    ensures forall i :: 0 <= i < |chunks| ==> 0 < |chunks[i]| <= ChunkSize
  {
    chunks := [];
    var pos := 0;
    assert data[pos..] == data;
    while true
      invariant pos <= |data|
      invariant chunks + Chunks(data[pos..]) == Chunks(data)
      decreases |data| - pos
    {
      var chunk := ReadAt(data, pos, ChunkSize);
      if chunk == [] {
        break;
      }
      ChunksStep(data, pos, chunk);
      ghost var later := Chunks(data[pos + |chunk|..]);
      AppendAssociates(chunks, [chunk], later);
      chunks := chunks + [chunk];
      pos := pos + |chunk|;
    }
    assert data[pos..] == [];
    assert chunks + [] == chunks;
    ChunksFlatten(data);
    ChunksBounded(data);
  }

  /** Where the last component of the path starts: just after its last `/`, or 0. */
  function ComponentStart(path: string): (i: nat)
    ensures i <= |path|
  {
    if path == [] || path[|path| - 1] == '/' then |path|
    else ComponentStart(path[..|path| - 1])
  }

  /** `os.path.basename`: what follows the last `/` of the path. */
  function Basename(path: string): string {
    path[ComponentStart(path)..]
  }

  /** The base name is the longest suffix of the path without a `/`. */
  lemma {:induction false} BasenameIsLastComponent(path: string)
    ensures Excludes(Basename(path), '/')
    ensures ComponentStart(path) > 0 ==> path[ComponentStart(path) - 1] == '/'
  {
    if path != [] && path[|path| - 1] != '/' {
      var init := path[..|path| - 1];
      BasenameIsLastComponent(init);
      assert Basename(path) == Basename(init) + [path[|path| - 1]];
    }
  }

  /** The download directory: file contents by path. */
  class Disk {
    var files: map<string, seq<Byte>>

    constructor (files: map<string, seq<Byte>>)
      ensures this.files == files
    {
      this.files := files;
    }

    /** `os.path.exists`. */
    function Exists(path: string): bool
      reads this
    {
      path in files
    }

    /**
     * `os.remove`: deletes the file, or fails (the file is gone, or the
     * operating system refuses, which `denied` stands for) and changes nothing.
     */
    method Remove(path: string, denied: bool) returns (removed: bool)
      modifies this
      ensures removed <==> path in old(files) && !denied
      ensures files == if removed then old(files) - {path} else old(files)
    {
      removed := path in files && !denied;
      if removed {
        files := files - {path};
      }
    }
  }
}
