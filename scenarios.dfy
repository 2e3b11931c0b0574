/** Concrete scans: the unit test's fixture (two files saying "Hello World" and one in a
    sub-directory saying "Another file"), an empty directory, and an unreadable file beside
    two identical ones. The file contents are left symbolic; only their digests matter. */
module Scenarios {
  import opened Base
  import opened Hashing
  import opened Grouping
  import opened Scan
  import opened Deletion

  const File1: Path := "test_dir/file1.txt"
  const File2: Path := "test_dir/file2.txt"
  const File3: Path := "test_dir/subdir/file3.txt"

  /** The fixture of the unit test: `file1` and `file2` share their content, `file3` differs;
      the walk meets them in this order. One group, under the shared fingerprint, holds
      `file1` then `file2`; `file3` is in no group. */
  lemma FixtureScan(hello: seq<Byte>, another: seq<Byte>, digest: seq<Byte> -> Digest)
    requires digest(hello) != digest(another) && digest(hello) != "" && digest(another) != ""
    ensures var fs := map[File1 := Regular(hello, None), File2 := Regular(hello, None),
                          File3 := Regular(another, None)];
      Duplicates([File1, File2, File3], HashAll(fs, [File1, File2, File3], digest)) ==
        Groups([digest(hello)], map[digest(hello) := [File1, File2]])
  {
    var fs := map[File1 := Regular(hello, None), File2 := Regular(hello, None),
                  File3 := Regular(another, None)];
    var walk := [File1, File2, File3];
    HashFileOutcome(fs, File1, digest, DefaultChunkSize);
    HashFileOutcome(fs, File2, digest, DefaultChunkSize);
    HashFileOutcome(fs, File3, digest, DefaultChunkSize);
    var hashes := HashAll(fs, walk, digest);
    assert hashes == [Some(digest(hello)), Some(digest(hello)), Some(digest(another))];
    assert walk[..2][..1] == [File1] && hashes[..2][..1] == [Some(digest(hello))];
    assert walk[..2] == [File1, File2] && hashes[..2] == [Some(digest(hello)), Some(digest(hello))];
    var dh, da := digest(hello), digest(another);
    assert [File1][..0] == [] && [Some(dh)][..0] == [];
    assert Collect([File1], [Some(dh)]) == Groups([dh], map[dh := [File1]]);
    assert dh != "";
    assert Collect([File1, File2], [Some(dh), Some(dh)]) == Groups([dh], map[dh := [File1, File2]]) by {
      var g1 := Collect([File1], [Some(dh)]);
      assert [File1, File2][..1] == [File1] && [Some(dh), Some(dh)][..1] == [Some(dh)];
      assert Collect([File1, File2], [Some(dh), Some(dh)]) == Groups(g1.keys, g1.lists[dh := g1.lists[dh] + [File2]]);
      assert g1.lists[dh] + [File2] == [File1, File2];
      assert g1.lists[dh := g1.lists[dh] + [File2]] == map[dh := [File1, File2]];
    }
    assert Collect(walk[..2], hashes[..2]) == Groups([dh], map[dh := [File1, File2]]);
    var g := Collect(walk, hashes);
    assert walk[..2] + [File3] == walk;
    assert g == Groups([dh, da], map[dh := [File1, File2], da := [File3]]);
    assert g.keys[1..] == [da] && [da][1..] == [];
    assert |g.lists[dh]| == 2 && |g.lists[da]| == 1;
    assert RepeatedKeys([da], g.lists) == [];
    assert RepeatedKeys(g.keys, g.lists) == [dh];
    assert (map h | h in g.lists && |g.lists[h]| > 1 :: g.lists[h]) == map[dh := [File1, File2]];
  }

  /** An empty directory gives an empty result. */
  lemma EmptyDirectoryScan(fs: FileSystem, digest: seq<Byte> -> Digest)
    ensures Duplicates([], HashAll(fs, [], digest)) == Empty
  {
  }

  /** A file that cannot be opened does not stop the scan and is left out; the two identical
      readable files are still reported as one group. */
  lemma UnreadableFileSkipped(same: seq<Byte>, digest: seq<Byte> -> Digest, a: Path, b: Path, locked: Path)
    requires digest(same) != ""
    requires a != b && a != locked && b != locked
    ensures var fs := map[a := Regular(same, None), locked := Unopenable, b := Regular(same, None)];
      Duplicates([a, locked, b], HashAll(fs, [a, locked, b], digest)) ==
        Groups([digest(same)], map[digest(same) := [a, b]])
  {
    var fs := map[a := Regular(same, None), locked := Unopenable, b := Regular(same, None)];
    var walk := [a, locked, b];
    HashFileOutcome(fs, a, digest, DefaultChunkSize);
    HashFileOutcome(fs, b, digest, DefaultChunkSize);
    var hashes := HashAll(fs, walk, digest);
    assert hashes == [Some(digest(same)), None, Some(digest(same))];
    assert walk[..2][..1] == [a] && hashes[..2][..1] == [Some(digest(same))];
    assert walk[..2] == [a, locked] && hashes[..2] == [Some(digest(same)), None];
    var ds := digest(same);
    assert [a][..0] == [] && [Some(ds)][..0] == [];
    assert Collect([a], [Some(ds)]) == Groups([ds], map[ds := [a]]);
    assert Collect(walk[..2], hashes[..2]) == Groups([ds], map[ds := [a]]);
    var g := Collect(walk, hashes);
    assert walk[..2] + [b] == walk;
    assert [a] + [b] == [a, b];
    assert g == Groups([ds], map[ds := [a, b]]);
    assert g.keys[1..] == [];
    assert RepeatedKeys(g.keys, g.lists) == [digest(same)];
    assert (map h | h in g.lists && |g.lists[h]| > 1 :: g.lists[h]) == g.lists;
  }

  /** A group of three identical files, all on disk and removable: with `keep_one` exactly the
      first remains; without it none remains, and every removal is reported as done. */
  lemma ThreeCopiesRemoved(h: Digest, a: Path, b: Path, c: Path, keepOne: bool)
    requires a != b && b != c && a != c
    ensures var g := Groups([h], map[h := [a, b, c]]);
      var r := Run({a, b, c}, {}, Plan(g.keys, g.lists, keepOne));
      && r.1 == (if keepOne then {a} else {})
      && r.0 == (if keepOne then [Deleted(b), Deleted(c)] else [Deleted(a), Deleted(b), Deleted(c)])
  {
    var g := Groups([h], map[h := [a, b, c]]);
    assert g.keys[..0] == [];
    var plan := Plan(g.keys, g.lists, keepOne);
    var s := {a, b, c};
    assert Plan(g.keys, g.lists, keepOne) == [] + ToDelete([a, b, c], keepOne);
    RunAppend(s, {}, [], a);
    assert [] + [a] == [a] && [a] + [b] == [a, b] && [a, b] + [c] == [a, b, c];
    RunAppend(s, {}, [a], b);
    RunAppend(s, {}, [a, b], c);
    if keepOne {
      assert [a, b, c][1..] == [b, c];
      assert plan == [b, c];
      RunAppend(s, {}, [], b);
      assert [] + [b] == [b] && [b] + [c] == [b, c];
      RunAppend(s, {}, [b], c);
      assert s - {b} - {c} == {a};
    } else {
      assert plan == [a, b, c];
      assert s - {a} - {b} - {c} == {};
    }
  }
}
