# Duplicate file finder — a verified model of its duplicate-detection engine

The duplicate file finder walks a directory tree and fingerprints every file with a content
digest (SHA-256 by default). It groups the paths by fingerprint and reports the fingerprints
that more than one file shares. On request it then deletes every copy but the first in each
group, or every copy. This project models the engine in Dafny and proves what it promises:

- **Hashing** (`hashing.dfy`, module `Hashing`): `calculate_hash` opens the file and feeds it
  in `chunk_size` pieces to an incremental hasher until the first empty read. It returns the hex
  digest, or `None` when the open or any read raises `OSError`. The open file (`FileReader`)
  and the hasher (`Hasher`) are classes, because the source updates them in place. The loop
  is proved against the specification function `HashFile`.
- **Grouping** (`grouping.dfy`, module `Grouping`): the dict `hash_dict` that both scanning
  functions build, modelled with its insertion order (`Groups`: key order plus the key→list
  map), and the comprehension that keeps lists longer than one. Both are specification
  functions (`Collect`, `KeepDuplicates`, `Duplicates`). They are proved equal to reference
  definitions that do not mention a dict: the positions whose hash is `h`, and the paths at
  those positions.
- **Scanning** (`scan.dfy`, module `Scan`): `find_duplicates` and `find_duplicates_parallel`
  are methods with the source's loops. Each is proved to return `Duplicates(walk, hashes)`,
  so the two agree exactly, including the order of keys and of paths.
- **Deletion** (`deletion.dfy`, module `Deletion`): `remove_duplicates` is a method over a
  `Disk` object whose `Remove` plays `os.remove`. It is proved to try exactly the planned
  paths, in dict order, whatever fails on the way.
- **Scenarios** (`scenarios.dfy`, module `Scenarios`): the unit test's fixture, an empty
  directory, an unreadable file beside two identical ones, and deleting from a group of three.

The directory walk is the input `walk`: the paths `os.walk` reports, in its order. The digest
algorithm is the input `digest`, a deterministic function of the bytes. The file system
(`FileSystem`) maps each path to its bytes and says which `read` call fails, if any, or that
the open fails. The tree is assumed not to change during a scan, so both strategies see the
same file system. `base.dfy` (module `Base`) holds the shared types and Python's truth test
`if file_hash:` (`Truthy`). That test skips `None` and also the empty string.

## Model

| member | source | states |
|---|---|---|
| `Base.Truthy` | duplicate_finder.py:52 | Python's `if file_hash:` on a `calculate_hash` result (also line 98): false for `None` and for the empty string, true for any other digest |
| `Hashing.Chunks` | duplicate_finder.py:30 | the non-empty results of `f.read(n)` in the `while` loop, in order, from the current position to the first empty read |
| `Hashing.FileReader.constructor` | duplicate_finder.py:29 | `open(path, 'rb')` on an openable file: the reader starts at position 0 with no `read` call made yet |
| `Hashing.Hasher.constructor` | duplicate_finder.py:27 | `hashlib.new(hash_algo)`: a fresh hasher that has absorbed no bytes |
| `Hashing.HashFile` | duplicate_finder.py:15-35 | what `calculate_hash(path, chunk_size=n)` returns on a static file system: a fingerprint exactly when the file opens and none of its read calls fail (`ReadsCleanly`), `None` otherwise |
| `Hashing.Hasher.HexDigest` | duplicate_finder.py:32 | `hasher.hexdigest()`: the digest algorithm applied to every byte fed to the hasher so far, in the order fed |
| `Hashing.ReadSize` | duplicate_finder.py:30 | `f.read(n)` returns nothing exactly when the file is exhausted or `n` is 0; otherwise it returns `n` bytes unless fewer are left (all that is left for negative `n`) |
| `Hashing.FileReader.Read` | duplicate_finder.py:30 | one `read` call: the next chunk and the advanced position, or `OSError` on the failing call with the position unchanged; the call count always grows by one |
| `Hashing.Hasher.Update` | duplicate_finder.py:31 | `hasher.update(chunk)` appends the chunk to the bytes absorbed so far |
| `Hashing.CalculateHash` | duplicate_finder.py:15-35 | returns exactly `HashFile`: `None` when the open fails or any of the read calls made fails (one per chunk plus the final empty read), otherwise the digest of the chunks in the order read |
| `Hashing.ChunksCoverContent` | duplicate_finder.py:29-31 | for any non-zero chunk size the chunks fed to the hasher, put together, are exactly the file's bytes in order |
| `Hashing.ChunkLengths` | duplicate_finder.py:30 | with a positive chunk size every chunk is non-empty and at most `chunk_size` bytes; all but the last are exactly `chunk_size` bytes |
| `Hashing.ChunkCount` | duplicate_finder.py:30 | with a positive chunk size the number of chunks `c` satisfies `len <= chunk_size * c < len + chunk_size` |
| `Hashing.HashFileOutcome` | duplicate_finder.py:28-35 | for a non-zero chunk size the result is `None` if and only if the open or some read fails; otherwise it is the digest of the whole content |
| `Hashing.SameContentSameHash` | duplicate_finder.py:27-32 | for a non-zero chunk size, two cleanly readable files with the same bytes get the same fingerprint, the digest of those bytes |
| `Hashing.ZeroChunkSizeHashesNothing` | duplicate_finder.py:15 | with `chunk_size=0` the first read is empty, so a file that opens and whose first read does not fail gets the digest of the empty content |
| `Grouping.Duplicates` | duplicate_finder.py:47-57 | what `find_duplicates` returns (lines 47-57), and `find_duplicates_parallel` too (lines 97-104): the comprehension applied to the dict the loop builds |
| `Grouping.RepeatedKeys` | duplicate_finder.py:57 | the keys the comprehension keeps, in the dict's key order: those whose list holds more than one path |
| `Grouping.Collect` | duplicate_finder.py:47-56 | `hash_dict` after the loop has visited the paths: at most one key per path, and no key with an empty list |
| `Grouping.CollectValid` | duplicate_finder.py:47-56 | helper, one part of `CollectCharacterised`: the loop's dict lists each key once, and lists exactly the keys it maps |
| `Grouping.CollectKeys` | duplicate_finder.py:52-56 | helper, one part of `CollectCharacterised`: the loop's dict has a key for a fingerprint exactly when it is non-empty and some enumerated path has it |
| `Grouping.CollectLists` | duplicate_finder.py:53-56 | helper, one part of `CollectCharacterised`: under each key the loop's dict holds exactly the paths with that fingerprint, in enumeration order |
| `Grouping.CollectOrder` | duplicate_finder.py:53-56 | helper, one part of `CollectCharacterised`: the loop's dict lists its keys in the order their fingerprints were first met |
| `Grouping.CollectCharacterised` | duplicate_finder.py:47-56 | the loop's dict has each key once, in order of first discovery; it has a key exactly for each non-empty fingerprint met; under each key it holds exactly the paths with that fingerprint, in enumeration order |
| `Grouping.KeepDuplicates` | duplicate_finder.py:57 | the comprehension keeps exactly the keys whose list has more than one path, each with its list unchanged; a well-formed dict gives a well-formed dict |
| `Grouping.RepeatedKeysMembers` | duplicate_finder.py:57 | helper, one part of `RepeatedKeysFacts`: the keys the comprehension keeps are those whose list is longer than one; distinct keys stay distinct |
| `Grouping.RepeatedKeysFacts` | duplicate_finder.py:57 | the key filter keeps a key exactly when its list is longer than one, and keeps the keys distinct and in their order |
| `Grouping.DuplicatesCharacterised` | duplicate_finder.py:47-57 | the result has a key exactly for each non-empty fingerprint held by two or more enumerated paths; under it are exactly the paths with that fingerprint, in enumeration order; keys are in order of first discovery |
| `Grouping.GroupsHaveTwoOrMore` | duplicate_finder.py:57 | every group in the result has at least two paths |
| `Grouping.GroupIsPathsWithKeyInOrder` | duplicate_finder.py:53-56 | the group under `h` lists the paths at the increasing positions whose hash is `h`, and every such position is listed |
| `Grouping.MembersCarryKey` | duplicate_finder.py:51-56 | every member of the group under `h` is an enumerated path whose computed hash is `h` |
| `Grouping.GroupedPathSharesItsHash` | duplicate_finder.py:47-57 | helper, one part of `PathInGroupIff`: with distinct paths, a grouped path has the group's fingerprint as its own hash, and some other path has it too |
| `Grouping.SharedHashIsGrouped` | duplicate_finder.py:47-57 | helper, one part of `PathInGroupIff`: a path whose non-empty hash another path shares is in the group of that fingerprint |
| `Grouping.PathInGroupIff` | duplicate_finder.py:47-57 | with distinct paths, a path is in some group if and only if its hash succeeded and another path has the same hash; it is then only in the group of its own fingerprint |
| `Grouping.FailedPathsExcluded` | duplicate_finder.py:52 | with distinct paths, a path whose hash is `None` (or empty) is in no group |
| `Grouping.NoPathTwice` | duplicate_finder.py:47-57 | with distinct paths, no path appears twice in the result, within a group or across groups |
| `Scan.HashAll` | duplicate_finder.py:51 | the `calculate_hash` results of the walked paths (line 51, and `pool.map` at line 95): one per path, in walk order, `None` exactly when the file does not open or a read fails with the default chunk size 8192 |
| `Scan.FindDuplicates` | duplicate_finder.py:37-59 | the serial scan returns `Duplicates(walk, hashes)`, where `hashes` are the `calculate_hash` results of the walked paths |
| `Scan.HashEach` | duplicate_finder.py:94-95 | `pool.map(calculate_hash, file_paths)` gives one result per path, in the order of the paths |
| `Scan.FindDuplicatesParallel` | duplicate_finder.py:86-105 | the parallel scan returns `Duplicates(walk, hashes)` for the same walk and the same results |
| `Scan.ScanModesAgree` | duplicate_finder.py:86-105 | for one static tree the serial scan (lines 37-59) and the parallel scan return identical dicts: the same keys in the same order, each with the same paths in the same order |
| `Deletion.Disk.Remove` | duplicate_finder.py:78 | `os.remove` succeeds exactly on a present file it may remove, and removes only that file; otherwise nothing changes |
| `Deletion.ToDelete` | duplicate_finder.py:70-74 | without `keep_one` the whole list; with it, the list less its first path (an empty list stays empty) |
| `Deletion.Plan` | duplicate_finder.py:69-76 | the paths `remove_duplicates` tries, in the order it tries them: groups in dict order, and within a group the paths `ToDelete` keeps, in list order |
| `Deletion.Run` | duplicate_finder.py:76-81 | trying the planned paths one after another: one report per planned path, and the files left are among the files there before |
| `Deletion.RemoveDuplicates` | duplicate_finder.py:61-81 | the reports and the files left are those of trying every planned path in order, groups in dict order, catching each `OSError` |
| `Deletion.EveryPlannedPathTried` | duplicate_finder.py:76-81 | a failure does not stop the rest: there is one report per planned path, in the planned order |
| `Deletion.RunFilesLeft` | duplicate_finder.py:76-81 | helper, one part of `RunOutcome`: the files left are the files there before, less the planned paths that may be removed |
| `Deletion.RunReports` | duplicate_finder.py:76-81 | helper, one part of `RunOutcome`: a path is reported deleted exactly when it was present, removable and not tried before |
| `Deletion.RunOutcome` | duplicate_finder.py:76-81 | the files left are the files there before, less the planned paths that may be removed; a path is reported deleted exactly when it was present, removable and not tried before |
| `Deletion.PlanMembers` | duplicate_finder.py:69-74 | a path is planned exactly when it is in some group, at a position after the first when `keep_one` is set |
| `Deletion.KeepOneSparesFirst` | duplicate_finder.py:70-72 | with `keep_one`, when no path is listed twice, the first path of each group is never planned and all of its other paths are |
| `Deletion.DeleteAllPlansEveryPath` | duplicate_finder.py:73-74 | without `keep_one`, every path of every group is planned |
| `Deletion.CopiesLeftPerGroup` | duplicate_finder.py:69-81 | when all members are present and removable, `keep_one` leaves exactly the group's first path among its members, and no `keep_one` leaves none |
| `Deletion.ScanThenRemove` | duplicate_finder.py:61-81 | the same holds of every group a scan of a walk of distinct paths returns |
| `Scenarios.FixtureScan` | test_duplicate_finder.py:7-33 | when the walk meets `file1.txt`, `file2.txt`, `file3.txt` in that order, the test fixture gives one group, under the shared fingerprint, holding `file1.txt` then `file2.txt`; `file3.txt` is in no group |
| `Scenarios.EmptyDirectoryScan` | duplicate_finder.py:47-59 | an empty walk gives an empty dict |
| `Scenarios.UnreadableFileSkipped` | duplicate_finder.py:51-56 | a file that cannot be opened is skipped, and the two identical readable files still form one group |
| `Scenarios.ThreeCopiesRemoved` | duplicate_finder.py:69-81 | from a group of three removable copies, `keep_one` leaves only the first and reports two deletions; otherwise none are left and three deletions are reported |

## Left out

- The directory walk (`os.walk`, duplicate_finder.py:48-50 and 89-92) is file system I/O. It is the input `walk`. The model assumes it lists each path once where a lemma needs that (`Distinct`).
- The digest algorithm (`hashlib.new(hash_algo)`, `hexdigest`) is a foreign library. It is the input `digest`, a deterministic function of the bytes. The lookup of `hash_algo` by name is not modelled, so its `ValueError` for an unknown name, raised outside the `try`, is not either.
- Closing the file at the end of the `with` block (duplicate_finder.py:29) is not modelled. The close runs inside the `try` (lines 28-32), so an `OSError` raised by `close()` would be caught at line 33 and make `calculate_hash` return `None` instead of the digest; the model has no failing close, and a file whose open and reads succeed always gets its digest.
- `multiprocessing.Pool` concurrency is not modelled. `pool.map` is the order-preserving loop `HashEach`.
- Special files are not represented. `FileSystem` holds finite regular contents or a file that fails to open, but `os.walk` also lists FIFOs, character devices and similar entries among `files`. On those, `open` or `read` (duplicate_finder.py:29-30) may block forever or never return an empty read, which would stall the serial scan or a worker of the pool. The read loop is proved to end only because every modelled file is finite.
- A tree that changes during a scan is not modelled: both strategies read one static `FileSystem`.
- Logging (`setup_logging`, `logging.info`) and every `print` are I/O only. The deletion reports are kept as the `Attempt` log.
- `main` and its argument parsing (duplicate_finder.py:107-124) are CLI plumbing. It declares `--exclude` and `--extensions` (lines 111-112) and passes them as `exclude=` and `extensions=` to `find_duplicates` (line 115), which takes neither, so there is no filtering logic to model.
- `calculate_hash_wrapper` (duplicate_finder.py:83-84) is unused.
- performance_test.py (wall-clock timing) and setup.py (packaging) are not part of this model.
- Deletion.RemoveDuplicates: requires the dict to be well formed (`Valid`: each key listed once and every listed key present). A Python dict always is.
- Deletion.KeepOneSparesFirst: proved for groups in which no path is listed twice (`NoSharedPaths`). `Grouping.NoPathTwice` shows that every scan of a walk of distinct paths gives such groups.
- Scenarios.FixtureScan: the file contents are symbolic. The lemma assumes their two digests differ and are non-empty, which the unit test expects of SHA-256. It also fixes the walk order as `file1.txt`, `file2.txt`, `file3.txt`; `os.walk` lists the files of a directory in no promised order, and for the other order of `file1.txt` and `file2.txt` the group lists them the other way round.
