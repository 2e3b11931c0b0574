/** The deletion policy of `remove_duplicates`: for each group, in dict order, try to remove
    every path but the first (`keep_one`) or every path, carrying on past each failure. */
module Deletion {
  import opened Base
  import opened Grouping

  /** What `remove_duplicates` reports for one path: removed, or an `OSError` caught. */
  datatype Attempt = Deleted(path: Path) | DeleteFailed(path: Path)

  /** The files on disk as `os.remove` sees them; `locked` holds the paths it is not allowed
      to remove. */
  class Disk {
    var files: set<Path>
    const locked: set<Path>

    constructor (files: set<Path>, locked: set<Path>)
      ensures this.files == files && this.locked == locked
    {
      this.files := files;
      this.locked := locked;
    }

    /** `os.remove(path)`: succeeds on a present file it may remove; otherwise it raises
        `OSError` (reported here as `false`) and changes nothing. */
    method Remove(p: Path) returns (ok: bool)
      modifies this
      ensures ok == (p in old(files) && p !in locked)
      ensures files == if ok then old(files) - {p} else old(files)
    {
      ok := p in files && p !in locked;
      if ok {
        files := files - {p};
      }
    }
  }

  /** `files[1:]` when `keep_one` is set, `files` otherwise. */
  function ToDelete(files: seq<Path>, keepOne: bool): (r: seq<Path>)
    ensures !keepOne ==> r == files
    ensures keepOne && files != [] ==> files == [files[0]] + r
    ensures keepOne && files == [] ==> r == []
  {
    if !keepOne then files else if files == [] then [] else files[1..]
  }

  /** Every path `remove_duplicates` tries to remove, in the order it tries them: the groups
      in the order of `keys`, and within a group in list order. */
  function Plan(keys: seq<Digest>, lists: map<Digest, seq<Path>>, keepOne: bool): seq<Path>
  {
    if keys == [] then []
    else
      var n := |keys| - 1;
      Plan(keys[..n], lists, keepOne) + (if keys[n] in lists then ToDelete(lists[keys[n]], keepOne) else [])
  }

  /** The reports and the files left after trying to remove the paths of `plan` one after
      another, each failure being reported and passed over. */
  function Run(files: set<Path>, locked: set<Path>, plan: seq<Path>): (r: (seq<Attempt>, set<Path>))
    ensures |r.0| == |plan|
    ensures r.1 <= files
  {
    if plan == [] then ([], files)
    else
      var n := |plan| - 1;
      var before := Run(files, locked, plan[..n]);
      var p := plan[n];
      if p in before.1 && p !in locked then (before.0 + [Deleted(p)], before.1 - {p})
      else (before.0 + [DeleteFailed(p)], before.1)
  }

  /** Planning one more group after the first `k`. */
  lemma PlanStep(keys: seq<Digest>, lists: map<Digest, seq<Path>>, keepOne: bool, k: nat)
    requires k < |keys| && keys[k] in lists
    ensures Plan(keys[..k + 1], lists, keepOne) == Plan(keys[..k], lists, keepOne) + ToDelete(lists[keys[k]], keepOne)
  {
    assert keys[..k + 1][..k] == keys[..k];
  }

  /** Trying one more path after `plan`. */
  lemma RunAppend(files: set<Path>, locked: set<Path>, plan: seq<Path>, p: Path)
    ensures var before := Run(files, locked, plan);
      Run(files, locked, plan + [p]) ==
        if p in before.1 && p !in locked then (before.0 + [Deleted(p)], before.1 - {p})
        else (before.0 + [DeleteFailed(p)], before.1)
  {
    assert (plan + [p])[..|plan|] == plan;
  }

  /** Trying the path at `j` of a group after `tried` and the group's earlier paths. */
  lemma RunExtend(files: set<Path>, locked: set<Path>, tried: seq<Path>, group: seq<Path>, j: nat)
    requires j < |group|
    ensures var before := Run(files, locked, tried + group[..j]);
      var p := group[j];
      Run(files, locked, tried + group[..j + 1]) ==
        if p in before.1 && p !in locked then (before.0 + [Deleted(p)], before.1 - {p})
        else (before.0 + [DeleteFailed(p)], before.1)
  {
    assert tried + group[..j + 1] == (tried + group[..j]) + [group[j]];
    RunAppend(files, locked, tried + group[..j], group[j]);
  }

  /** `remove_duplicates(duplicates, keep_one)`: the reports it prints and the files left are
      those of trying the planned paths in order. */
  method RemoveDuplicates(disk: Disk, duplicates: Groups, keepOne: bool) returns (log: seq<Attempt>)
    requires duplicates.Valid()
    modifies disk
    ensures (log, disk.files) == Run(old(disk.files), disk.locked, Plan(duplicates.keys, duplicates.lists, keepOne))
  {
    ghost var start := disk.files;
    log := [];
    ghost var tried: seq<Path> := [];
    for k := 0 to |duplicates.keys|
      invariant tried == Plan(duplicates.keys[..k], duplicates.lists, keepOne)
      invariant (log, disk.files) == Run(start, disk.locked, tried)
    {
      var hashVal := duplicates.keys[k];
      var files := duplicates.lists[hashVal];
      var filesToDelete := ToDelete(files, keepOne);
      assert tried + filesToDelete[..0] == tried;
      for j := 0 to |filesToDelete|
        invariant (log, disk.files) == Run(start, disk.locked, tried + filesToDelete[..j])
      {
        var filePath := filesToDelete[j];
        RunExtend(start, disk.locked, tried, filesToDelete, j);
        var ok := disk.Remove(filePath);
        if ok {
          log := log + [Deleted(filePath)];
        } else {
          log := log + [DeleteFailed(filePath)];
        }
      }
      assert filesToDelete[..|filesToDelete|] == filesToDelete;
      PlanStep(duplicates.keys, duplicates.lists, keepOne, k);
      tried := tried + filesToDelete;
    }
    assert duplicates.keys[..|duplicates.keys|] == duplicates.keys;
  }

  // ---------------------------------------------------------------------------------------
  // Lemmas.

  /** A failed removal does not stop the others: every planned path is tried, once, in order. */
  lemma {:induction false} EveryPlannedPathTried(files: set<Path>, locked: set<Path>, plan: seq<Path>)
    ensures var log := Run(files, locked, plan).0;
      |log| == |plan| && forall i :: 0 <= i < |plan| ==> log[i].path == plan[i]
  {
    if plan != [] {
      EveryPlannedPathTried(files, locked, plan[..|plan| - 1]);
    }
  }

  /** Afterwards the files left are those that were there, less the planned paths it may
      remove. */
  lemma {:induction false} RunFilesLeft(files: set<Path>, locked: set<Path>, plan: seq<Path>)
    ensures Run(files, locked, plan).1 == files - (set p | p in plan && p !in locked)
  {
    if plan != [] {
      var n := |plan| - 1;
      RunFilesLeft(files, locked, plan[..n]);
      assert (set p | p in plan && p !in locked) ==
        (set p | p in plan[..n] && p !in locked) + (if plan[n] !in locked then {plan[n]} else {})
      by {
        assert plan == plan[..n] + [plan[n]];
      }
    }
  }

  /** A path is reported removed exactly when it was there, may be removed, and was not tried
      before. */
  lemma {:induction false} RunReports(files: set<Path>, locked: set<Path>, plan: seq<Path>)
    ensures var log := Run(files, locked, plan).0;
      forall i :: 0 <= i < |plan| ==>
        (log[i].Deleted? <==> plan[i] in files && plan[i] !in locked && plan[i] !in plan[..i])
  {
    if plan != [] {
      var n := |plan| - 1;
      RunReports(files, locked, plan[..n]);
      RunFilesLeft(files, locked, plan[..n]);
      var log0 := Run(files, locked, plan[..n]).0;
      var log := Run(files, locked, plan).0;
      forall i | 0 <= i < |plan|
        ensures log[i].Deleted? <==> plan[i] in files && plan[i] !in locked && plan[i] !in plan[..i]
      {
        if i < n {
          assert log[i] == log0[i];
          assert plan[..n][i] == plan[i] && plan[..n][..i] == plan[..i];
        } else {
          assert plan[..i] == plan[..n];
        }
      }
    }
  }

  /** Afterwards the files left are those that were there, less the planned paths it may
      remove; a path is reported removed exactly when it was there, may be removed, and was
      not tried before. */
  lemma {:induction false} RunOutcome(files: set<Path>, locked: set<Path>, plan: seq<Path>)
    ensures var r := Run(files, locked, plan);
      && |r.0| == |plan|
      && r.1 == files - (set p | p in plan && p !in locked)
      && (forall i :: 0 <= i < |plan| ==>
            (r.0[i].Deleted? <==> plan[i] in files && plan[i] !in locked && plan[i] !in plan[..i]))
  {
    RunFilesLeft(files, locked, plan);
    RunReports(files, locked, plan);
  }

  /** Which paths are planned: with `keep_one`, every path of every group except the group's
      first; without it, every path of every group. */
  lemma {:induction false} PlanMembers(keys: seq<Digest>, lists: map<Digest, seq<Path>>, keepOne: bool, p: Path)
    ensures p in Plan(keys, lists, keepOne) <==>
      exists k, a :: 0 <= k < |keys| && keys[k] in lists && 0 <= a < |lists[keys[k]]| &&
        (keepOne ==> a >= 1) && lists[keys[k]][a] == p
  {
    if keys != [] {
      var n := |keys| - 1;
      PlanMembers(keys[..n], lists, keepOne, p);
      var last := if keys[n] in lists then ToDelete(lists[keys[n]], keepOne) else [];
      assert Plan(keys, lists, keepOne) == Plan(keys[..n], lists, keepOne) + last;
      if p in Plan(keys[..n], lists, keepOne) {
        var k, a :| 0 <= k < |keys[..n]| && keys[..n][k] in lists && 0 <= a < |lists[keys[..n][k]]| &&
          (keepOne ==> a >= 1) && lists[keys[..n][k]][a] == p;
        assert keys[..n][k] == keys[k];
      }
      if p in last {
        var c :| 0 <= c < |last| && last[c] == p;
        var a := if keepOne then c + 1 else c;
        assert 0 <= n < |keys| && keys[n] in lists && 0 <= a < |lists[keys[n]]| && lists[keys[n]][a] == p;
      }
      if exists k, a :: 0 <= k < |keys| && keys[k] in lists && 0 <= a < |lists[keys[k]]| &&
          (keepOne ==> a >= 1) && lists[keys[k]][a] == p {
        var k, a :| 0 <= k < |keys| && keys[k] in lists && 0 <= a < |lists[keys[k]]| &&
          (keepOne ==> a >= 1) && lists[keys[k]][a] == p;
        if k < n {
          assert keys[..n][k] == keys[k];
        } else {
          assert last[if keepOne then a - 1 else a] == p;
        }
      }
    }
  }

  /** With `keep_one`, the first path of a group is never planned for removal, provided no
      path is listed twice (which holds of every scan result). */
  lemma KeepOneSparesFirst(g: Groups, h: Digest)
    requires g.Valid() && NoSharedPaths(g)
    requires h in g.lists && g.lists[h] != []
    ensures g.lists[h][0] !in Plan(g.keys, g.lists, true)
    ensures forall a :: 1 <= a < |g.lists[h]| ==> g.lists[h][a] in Plan(g.keys, g.lists, true)
  {
    PlanMembers(g.keys, g.lists, true, g.lists[h][0]);
    var k :| 0 <= k < |g.keys| && g.keys[k] == h;
    forall a | 1 <= a < |g.lists[h]|
      ensures g.lists[h][a] in Plan(g.keys, g.lists, true)
    {
      PlanMembers(g.keys, g.lists, true, g.lists[h][a]);
    }
  }

  /** Without `keep_one`, every path of every group is planned for removal. */
  lemma DeleteAllPlansEveryPath(g: Groups, h: Digest, a: nat)
    requires g.Valid()
    requires h in g.lists && a < |g.lists[h]|
    ensures g.lists[h][a] in Plan(g.keys, g.lists, false)
  {
    PlanMembers(g.keys, g.lists, false, g.lists[h][a]);
    var k :| 0 <= k < |g.keys| && g.keys[k] == h;
  }

  /** When every member of every group is on disk and removable, removing with `keep_one`
      leaves exactly one file per group, its first; removing without it leaves none. */
  lemma CopiesLeftPerGroup(g: Groups, files: set<Path>, keepOne: bool, h: Digest)
    requires g.Valid() && NoSharedPaths(g)
    requires forall h', a :: h' in g.lists && 0 <= a < |g.lists[h']| ==> g.lists[h'][a] in files
    requires h in g.lists && g.lists[h] != []
    ensures var left := Run(files, {}, Plan(g.keys, g.lists, keepOne)).1;
      (set p | p in g.lists[h] && p in left) == if keepOne then {g.lists[h][0]} else {}
  {
    var plan := Plan(g.keys, g.lists, keepOne);
    var left := Run(files, {}, plan).1;
    RunOutcome(files, {}, plan);
    var group := g.lists[h];
    if keepOne {
      KeepOneSparesFirst(g, h);
      forall p | p in group && p in left
        ensures p == group[0]
      {
        var a :| 0 <= a < |group| && group[a] == p;
      }
      assert group[0] in left;
    } else {
      forall p | p in group
        ensures p !in left
      {
        var a :| 0 <= a < |group| && group[a] == p;
        DeleteAllPlansEveryPath(g, h, a);
      }
    }
  }

  /** Removing with `keep_one` after a scan of a walk that lists every path once, when all
      grouped files are on disk and removable, leaves exactly the first path of each group
      among its members; removing without `keep_one` leaves none of them. */
  lemma ScanThenRemove(paths: seq<Path>, hashes: seq<Option<Digest>>, files: set<Path>, keepOne: bool, h: Digest)
    requires |paths| == |hashes| && Distinct(paths)
    requires forall i :: 0 <= i < |paths| ==> paths[i] in files
    requires h in Duplicates(paths, hashes).lists
    ensures var d := Duplicates(paths, hashes);
      var left := Run(files, {}, Plan(d.keys, d.lists, keepOne)).1;
      (set p | p in d.lists[h] && p in left) == if keepOne then {d.lists[h][0]} else {}
  {
    var d := Duplicates(paths, hashes);
    DuplicatesCharacterised(paths, hashes);
    NoPathTwice(paths, hashes);
    forall h', a | h' in d.lists && 0 <= a < |d.lists[h']|
      ensures d.lists[h'][a] in files
    {
      GroupIsPathsWithKeyInOrder(paths, hashes, h');
    }
    GroupsHaveTwoOrMore(paths, hashes, h);
    CopiesLeftPerGroup(d, files, keepOne, h);
  }
}
