/** The hasher: `calculate_hash` reads a file in fixed-size chunks, feeds each
    chunk to an incremental digest, and answers `None` when opening or reading fails. */
module Hashing {
  import opened Base

  /** What the file system holds at a path, as far as opening and reading it goes. */
  datatype FileEntry =
      /** A file whose `failingRead`-th call of `read` (counting from 0), if any, raises `OSError`. */
    | Regular(content: seq<Byte>, failingRead: Option<nat>)
      /** `open(path, 'rb')` raises `OSError` (permission denied, removed, a directory). */
    | Unopenable

  /** The file system as the hasher sees it; a path missing here fails to open. */
  type FileSystem = map<Path, FileEntry>

  /** The default `chunk_size` of `calculate_hash`. */
  const DefaultChunkSize: int := 8192

  /** How many bytes `f.read(n)` returns when `remaining` bytes are left:
      everything for a negative `n`, otherwise at most `n`. */
  function ReadSize(remaining: nat, n: int): (k: nat)
    ensures k <= remaining
    ensures n >= 0 ==> k <= n
    ensures k == 0 <==> remaining == 0 || n == 0
    ensures k < remaining ==> k == n
  {
    if n < 0 || remaining <= n then remaining else n
  }

  /** The non-empty chunks that `while chunk := f.read(n)` receives from `rest`, in order. */
  function Chunks(rest: seq<Byte>, n: int): seq<seq<Byte>>
    decreases |rest|
  {
    var k := ReadSize(|rest|, n);
    if k == 0 then [] else [rest[..k]] + Chunks(rest[k..], n)
  }

  /** The bytes of a sequence of chunks, one after the other. */
  function Flatten(chunks: seq<seq<Byte>>): seq<Byte>
  {
    if chunks == [] then [] else chunks[0] + Flatten(chunks[1..])
  }

  /** What `calculate_hash(path, chunk_size=n)` returns, given the file system and the digest
      algorithm: `None` when the open fails or one of the read calls made fails (one per chunk
      and the final empty one), otherwise the digest of the bytes fed to the hasher. */
  function HashFile(fs: FileSystem, path: Path, digest: seq<Byte> -> Digest, n: int): (r: Option<Digest>)
    ensures r.Some? <==> ReadsCleanly(fs, path, n)
  {
    if path !in fs then None
    else match fs[path]
      case Unopenable => None
      case Regular(content, failing) =>
        var chunks := Chunks(content, n);
        if failing.Some? && failing.value <= |chunks| then None
        else Some(digest(Flatten(chunks)))
  }

  /** A file that opens and none of whose read calls fail. */
  predicate ReadsCleanly(fs: FileSystem, path: Path, n: int)
  {
    path in fs && fs[path].Regular? &&
    (fs[path].failingRead.None? || fs[path].failingRead.value > |Chunks(fs[path].content, n)|)
  }

  lemma {:induction false} FlattenAppend(a: seq<seq<Byte>>, b: seq<seq<Byte>>)
    ensures Flatten(a + b) == Flatten(a) + Flatten(b)
  {
    if a == [] {
      assert a + b == b;
    } else {
      assert (a + b)[0] == a[0];
      assert (a + b)[1..] == a[1..] + b;
      FlattenAppend(a[1..], b);
    }
  }

  /** For any non-zero chunk size the chunks put back together are exactly the file's bytes,
      in order: the hasher sees the whole content and nothing else. */
  lemma {:induction false} ChunksCoverContent(rest: seq<Byte>, n: int)
    requires n != 0
    ensures Flatten(Chunks(rest, n)) == rest
  {
    var k := ReadSize(|rest|, n);
    if k != 0 {
      ChunksCoverContent(rest[k..], n);
      assert Chunks(rest, n)[1..] == Chunks(rest[k..], n);
      assert rest[..k] + rest[k..] == rest;
    }
  }

  /** With a positive chunk size every chunk is non-empty and at most `n` bytes long, and
      every chunk but the last is exactly `n` bytes long. */
  lemma {:induction false} ChunkLengths(rest: seq<Byte>, n: int)
    requires n > 0
    ensures var cs := Chunks(rest, n);
      && (forall i :: 0 <= i < |cs| ==> 0 < |cs[i]| <= n)
      && (forall i :: 0 <= i < |cs| - 1 ==> |cs[i]| == n)
  {
    var k := ReadSize(|rest|, n);
    if k != 0 {
      ChunkLengths(rest[k..], n);
      var cs := Chunks(rest, n);
      assert cs[1..] == Chunks(rest[k..], n);
      assert k < |rest| ==> Chunks(rest[k..], n) != [];
      forall i | 0 <= i < |cs| ensures 0 < |cs[i]| <= n && (i < |cs| - 1 ==> |cs[i]| == n) {
        if i > 0 {
          assert cs[i] == cs[1..][i - 1];
        }
      }
    }
  }

  /** With a positive chunk size the number of chunks is the number of `n`-byte blocks
      needed to hold the file: `|rest| <= n * |chunks| < |rest| + n`. */
  lemma {:induction false} ChunkCount(rest: seq<Byte>, n: int)
    requires n > 0
    ensures |rest| <= n * |Chunks(rest, n)| < |rest| + n
  {
    var k := ReadSize(|rest|, n);
    if k != 0 {
      ChunkCount(rest[k..], n);
      var m := |Chunks(rest[k..], n)|;
      assert |Chunks(rest, n)| == m + 1;
      assert n * (m + 1) == n * m + n;
      if k == |rest| {
        assert Chunks(rest[k..], n) == [];
      } else {
        assert k == n && |rest[k..]| == |rest| - n;
      }
    }
  }

  /** Feeding one more chunk adds its bytes at the end. */
  lemma FlattenSnoc(done: seq<seq<Byte>>, chunk: seq<Byte>)
    ensures Flatten(done + [chunk]) == Flatten(done) + chunk
  {
    FlattenAppend(done, [chunk]);
    assert [chunk][1..] == [];
    assert Flatten([chunk]) == chunk + Flatten([]);
  }

  /** The chunks read from position `pos` on: the one at `pos`, then those from `pos + k`. */
  lemma ChunksFrom(content: seq<Byte>, pos: nat, n: int)
    requires pos <= |content|
    requires ReadSize(|content| - pos, n) != 0
    ensures var k := ReadSize(|content| - pos, n);
      Chunks(content[pos..], n) == [content[pos..pos + k]] + Chunks(content[pos + k..], n)
  {
    var k := ReadSize(|content| - pos, n);
    var rest := content[pos..];
    assert |rest| == |content| - pos;
    assert rest[..k] == content[pos..pos + k];
    assert rest[k..] == content[pos + k..];
  }

  /** One turn of the read loop: a non-empty read at `pos` takes off the first of the chunks
      still to come, and the hasher has then absorbed that chunk after the earlier ones. */
  lemma ChunksStep(content: seq<Byte>, done: seq<seq<Byte>>, pos: nat, n: int)
    requires pos <= |content|
    requires ReadSize(|content| - pos, n) != 0
    requires Chunks(content, n) == done + Chunks(content[pos..], n)
    ensures var k := ReadSize(|content| - pos, n);
      && Chunks(content, n) == (done + [content[pos..pos + k]]) + Chunks(content[pos + k..], n)
      && Flatten(done + [content[pos..pos + k]]) == Flatten(done) + content[pos..pos + k]
  {
    var k := ReadSize(|content| - pos, n);
    var chunk := content[pos..pos + k];
    ChunksFrom(content, pos, n);
    assert done + ([chunk] + Chunks(content[pos + k..], n)) == (done + [chunk]) + Chunks(content[pos + k..], n);
    FlattenSnoc(done, chunk);
  }

  /** A file that opens and reads cleanly is fingerprinted by the digest of its whole content;
      one whose open or any of whose reads fails yields `None`. */
  lemma HashFileOutcome(fs: FileSystem, path: Path, digest: seq<Byte> -> Digest, n: int)
    requires n != 0
    ensures HashFile(fs, path, digest, n).None? <==> !ReadsCleanly(fs, path, n)
    ensures ReadsCleanly(fs, path, n) ==> HashFile(fs, path, digest, n) == Some(digest(fs[path].content))
  {
    if path in fs && fs[path].Regular? {
      ChunksCoverContent(fs[path].content, n);
    }
  }

  /** Determinism: two files with the same bytes that read cleanly get the same fingerprint. */
  lemma SameContentSameHash(fs: FileSystem, p: Path, q: Path, digest: seq<Byte> -> Digest, n: int)
    requires n != 0
    requires ReadsCleanly(fs, p, n) && ReadsCleanly(fs, q, n)
    requires fs[p].content == fs[q].content
    ensures HashFile(fs, p, digest, n) == HashFile(fs, q, digest, n) == Some(digest(fs[p].content))
  {
    HashFileOutcome(fs, p, digest, n);
    HashFileOutcome(fs, q, digest, n);
  }

  /** With `chunk_size=0`, `read(0)` returns no bytes, so the loop ends at once and every
      cleanly opened file gets the fingerprint of the empty content. */
  lemma ZeroChunkSizeHashesNothing(fs: FileSystem, path: Path, digest: seq<Byte> -> Digest)
    requires path in fs && fs[path].Regular?
    requires fs[path].failingRead != Some(0)
    ensures HashFile(fs, path, digest, 0) == Some(digest([]))
  {
  }

  /** The result of one `read` call. */
  datatype ReadResult = Chunk(bytes: seq<Byte>) | ReadError

  /** A file opened with `open(path, 'rb')`: its bytes, the position reached, and the
      number of `read` calls made so far. */
  class FileReader {
    const content: seq<Byte>
    const failingRead: Option<nat>
    var pos: nat
    var calls: nat

    predicate Valid()
      reads this
    {
      pos <= |content|
    }

    constructor (content: seq<Byte>, failingRead: Option<nat>)
      ensures Valid()
      ensures this.content == content && this.failingRead == failingRead
      ensures pos == 0 && calls == 0
    {
      this.content := content;
      this.failingRead := failingRead;
      pos := 0;
      calls := 0;
    }

    /** `f.read(n)`: the next at most `n` bytes (all that is left for negative `n`),
        or an `OSError` when this is the failing call. */
    method Read(n: int) returns (r: ReadResult)
      requires Valid()
      modifies this
      ensures Valid()
      ensures calls == old(calls) + 1
      ensures failingRead == Some(old(calls)) ==> r == ReadError && pos == old(pos)
      ensures failingRead != Some(old(calls)) ==>
        var k := ReadSize(|content| - old(pos), n);
        r == Chunk(content[old(pos)..old(pos) + k]) && pos == old(pos) + k
    {
      if failingRead == Some(calls) {
        r := ReadError;
      } else {
        var k := ReadSize(|content| - pos, n);
        r := Chunk(content[pos..pos + k]);
        pos := pos + k;
      }
      calls := calls + 1;
    }
  }

  /** An incremental digest (`hashlib.new(...)`): the bytes fed so far determine its value. */
  class Hasher {
    const digest: seq<Byte> -> Digest
    var absorbed: seq<Byte>

    constructor (digest: seq<Byte> -> Digest)
      ensures this.digest == digest && absorbed == []
    {
      this.digest := digest;
      absorbed := [];
    }

    /** `hasher.update(chunk)`. */
    method Update(chunk: seq<Byte>)
      modifies this
      ensures absorbed == old(absorbed) + chunk
    {
      absorbed := absorbed + chunk;
    }

    /** `hasher.hexdigest()`. */
    function HexDigest(): Digest
      reads this
    {
      digest(absorbed)
    }
  }

  /** `calculate_hash(path, chunk_size=n)`: opens the file, feeds it chunk by chunk to a fresh
      hasher until the first empty read, and answers `None` instead of raising on `OSError`. */
  method CalculateHash(fs: FileSystem, path: Path, digest: seq<Byte> -> Digest, n: int)
    returns (r: Option<Digest>)
    ensures r == HashFile(fs, path, digest, n)
  {
    var hasher := new Hasher(digest);
    if path !in fs || fs[path].Unopenable? {
      return None;
    }
    var content, failing := fs[path].content, fs[path].failingRead;
    var f := new FileReader(content, failing);
    ghost var done: seq<seq<Byte>> := [];
    while true
      invariant f.Valid() && f.content == content && f.failingRead == failing
      invariant Chunks(content, n) == done + Chunks(content[f.pos..], n)
      invariant f.calls == |done|
      invariant failing.None? || failing.value >= f.calls
      invariant hasher.digest == digest && hasher.absorbed == Flatten(done)
      decreases |content| - f.pos
    {
      ghost var before := f.pos;
      var chunk := f.Read(n);
      if chunk.ReadError? {
        return None;
      }
      if chunk.bytes == [] {
        break;
      }
      ChunksStep(content, done, before, n);
      hasher.Update(chunk.bytes);
      done := done + [chunk.bytes];
    }
    assert Chunks(content[f.pos..], n) == [];
    assert done == Chunks(content, n);
    r := Some(hasher.HexDigest());
  }
}
