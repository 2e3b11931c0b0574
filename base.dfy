/** Vocabulary shared by every part of the duplicate finder model. */
module Base {

  datatype Option<+T> = None | Some(value: T)

  /** A file path as `os.path.join(root, file)` produces it during the directory walk. */
  type Path = string

  /** One byte of file content. */
  type Byte = bv8

  /** A fingerprint: the hexadecimal text that `hexdigest()` returns. */
  type Digest = string

  /** Python's truth test `if file_hash:` on a result of `calculate_hash`:
      `None` and the empty string are both false. */
  predicate Truthy(r: Option<Digest>)
  {
    r.Some? && r.value != ""
  }

  /** No path occurs twice; `os.walk` reports every file once. */
  predicate Distinct(paths: seq<Path>)
  {
    forall i, j :: 0 <= i < j < |paths| ==> paths[i] != paths[j]
  }
}
