/** The two scanning strategies: `find_duplicates`, which hashes each path as the walk meets
    it, and `find_duplicates_parallel`, which first lists the paths, then hashes them all with
    an order-preserving `pool.map`, then groups them. The directory walk is the input `walk`:
    the paths `os.walk` reports, in the order it reports them. */
module Scan {
  import opened Base
  import opened Hashing
  import opened Grouping

  /** The results `calculate_hash` gives the walked paths with its default chunk size. */
  function HashAll(fs: FileSystem, walk: seq<Path>, digest: seq<Byte> -> Digest): (r: seq<Option<Digest>>)
    ensures |r| == |walk|
    ensures forall i :: 0 <= i < |walk| ==> (r[i].None? <==> !ReadsCleanly(fs, walk[i], DefaultChunkSize))
  {
    seq(|walk|, i requires 0 <= i < |walk| => HashFile(fs, walk[i], digest, DefaultChunkSize))
  }

  /** `find_duplicates(directory)`: hash every walked path in turn, file it under its
      fingerprint when hashing succeeded, then keep the fingerprints with two or more paths. */
  method FindDuplicates(fs: FileSystem, walk: seq<Path>, digest: seq<Byte> -> Digest) returns (dups: Groups)
    ensures dups == Duplicates(walk, HashAll(fs, walk, digest))
  {
    ghost var hashes := HashAll(fs, walk, digest);
    var hashDict := Empty;
    var i := 0;
    while i < |walk|
      invariant 0 <= i <= |walk|
      invariant hashDict == Collect(walk[..i], hashes[..i])
    {
      var fileHash := CalculateHash(fs, walk[i], digest, DefaultChunkSize);
      assert walk[..i + 1][..i] == walk[..i] && hashes[..i + 1][..i] == hashes[..i];
      if Truthy(fileHash) {
        var h := fileHash.value;
        if h in hashDict.lists {
          hashDict := hashDict.(lists := hashDict.lists[h := hashDict.lists[h] + [walk[i]]]);
        } else {
          hashDict := Groups(hashDict.keys + [h], hashDict.lists[h := [walk[i]]]);
        }
      }
      i := i + 1;
    }
    assert walk[..i] == walk && hashes[..i] == hashes;
    dups := KeepDuplicates(hashDict);
  }

  /** `pool.map(calculate_hash, file_paths)`: one result per path, in the order of the paths,
      however the workers share the work. */
  method HashEach(fs: FileSystem, paths: seq<Path>, digest: seq<Byte> -> Digest)
    returns (hashes: seq<Option<Digest>>)
    ensures hashes == HashAll(fs, paths, digest)
  {
    hashes := [];
    for i := 0 to |paths|
      invariant hashes == HashAll(fs, paths[..i], digest)
    {
      var h := CalculateHash(fs, paths[i], digest, DefaultChunkSize);
      hashes := hashes + [h];
    }
    assert paths[..|paths|] == paths;
  }

  /** `find_duplicates_parallel(directory)`: list the walked paths, hash them all, then walk
      the paths and their results together (`zip`), grouping as the serial scan does. */
  method FindDuplicatesParallel(fs: FileSystem, walk: seq<Path>, digest: seq<Byte> -> Digest)
    returns (dups: Groups)
    ensures dups == Duplicates(walk, HashAll(fs, walk, digest))
  {
    // Enumeration: `file_paths.append(full_path)` for every file the walk reports.
    var filePaths: seq<Path> := [];
    for i := 0 to |walk|
      invariant filePaths == walk[..i]
    {
      filePaths := filePaths + [walk[i]];
    }
    assert filePaths == walk;
    // Hashing.
    var hashes := HashEach(fs, filePaths, digest);
    // Reduction over `zip(file_paths, hashes)`; `pool.map` gives one result per path.
    var hashDict := Empty;
    for i := 0 to |filePaths|
      invariant hashDict == Collect(filePaths[..i], hashes[..i])
    {
      var filePath, fileHash := filePaths[i], hashes[i];
      assert filePaths[..i + 1][..i] == filePaths[..i] && hashes[..i + 1][..i] == hashes[..i];
      if Truthy(fileHash) {
        var h := fileHash.value;
        if h in hashDict.lists {
          hashDict := hashDict.(lists := hashDict.lists[h := hashDict.lists[h] + [filePath]]);
        } else {
          hashDict := Groups(hashDict.keys + [h], hashDict.lists[h := [filePath]]);
        }
      }
    }
    assert filePaths[..|filePaths|] == filePaths && hashes[..|hashes|] == hashes;
    dups := KeepDuplicates(hashDict);
  }

  /** For one static tree, the serial and the parallel scans return the same dict: the same
      fingerprints, in the same order, each with the same paths in the same order. */
  method ScanModesAgree(fs: FileSystem, walk: seq<Path>, digest: seq<Byte> -> Digest)
    returns (serial: Groups, parallel: Groups)
    ensures serial == parallel
  {
    serial := FindDuplicates(fs, walk, digest);
    parallel := FindDuplicatesParallel(fs, walk, digest);
  }
}
