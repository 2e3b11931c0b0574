/** Grouping paths by fingerprint: the dictionary `hash_dict` that `find_duplicates` and the
    reduction phase of `find_duplicates_parallel` build, and the filter that keeps only the
    fingerprints shared by more than one path. */
module Grouping {
  import opened Base

  /** A Python dict from fingerprint to list of paths. `keys` lists its keys in insertion
      order, the order in which iterating over the dict visits them. */
  datatype Groups = Groups(keys: seq<Digest>, lists: map<Digest, seq<Path>>)
  {
    /** Every key is listed once, and the listed keys are exactly the map's keys. */
    ghost predicate Valid()
    {
      && (forall i, j :: 0 <= i < j < |keys| ==> keys[i] != keys[j])
      && (forall h :: h in lists <==> h in keys)
    }
  }

  /** The empty dict `{}`. */
  const Empty: Groups := Groups([], map[])

  /** `hash_dict` after the loop has visited `paths` with their hash results `hashes`:
      a path whose result is truthy is appended to the list under its fingerprint, and the
      list is created when the fingerprint is met for the first time. */
  function Collect(paths: seq<Path>, hashes: seq<Option<Digest>>): (r: Groups)
    requires |paths| == |hashes|
    ensures |r.keys| <= |paths|
    ensures forall h :: h in r.lists ==> r.lists[h] != []
  {
    if paths == [] then Empty
    else
      var n := |paths| - 1;
      var g := Collect(paths[..n], hashes[..n]);
      if !Truthy(hashes[n]) then g
      else
        var h := hashes[n].value;
        if h in g.lists then Groups(g.keys, g.lists[h := g.lists[h] + [paths[n]]])
        else Groups(g.keys + [h], g.lists[h := [paths[n]]])
  }

  /** The keys among `keys` whose list in `lists` holds more than one path, in order. */
  function RepeatedKeys(keys: seq<Digest>, lists: map<Digest, seq<Path>>): seq<Digest>
  {
    if keys == [] then []
    else
      var rest := RepeatedKeys(keys[1..], lists);
      if keys[0] in lists && |lists[keys[0]]| > 1 then [keys[0]] + rest else rest
  }

  /** The comprehension `{h: ps for h, ps in hash_dict.items() if len(ps) > 1}`. */
  function KeepDuplicates(g: Groups): (r: Groups)
    ensures forall h :: h in r.lists <==> h in g.lists && |g.lists[h]| > 1
    ensures forall h :: h in r.lists ==> r.lists[h] == g.lists[h]
    ensures g.Valid() ==> r.Valid()
  {
    RepeatedKeysMembers(g.keys, g.lists);
    Groups(RepeatedKeys(g.keys, g.lists), map h | h in g.lists && |g.lists[h]| > 1 :: g.lists[h])
  }

  /** What both scanning functions return for the enumerated `paths` and their hash results. */
  function Duplicates(paths: seq<Path>, hashes: seq<Option<Digest>>): Groups
    requires |paths| == |hashes|
  {
    KeepDuplicates(Collect(paths, hashes))
  }

  // ---------------------------------------------------------------------------------------
  // Reference definitions, independent of the dictionary.

  /** The positions in the enumeration whose hash result is `h`, in increasing order. */
  function PositionsOf(hashes: seq<Option<Digest>>, h: Digest): seq<nat>
  {
    if hashes == [] then []
    else
      var n := |hashes| - 1;
      PositionsOf(hashes[..n], h) + (if hashes[n] == Some(h) then [n] else [])
  }

  /** The paths whose hash result is `h`, in enumeration order. */
  function PathsWith(paths: seq<Path>, hashes: seq<Option<Digest>>, h: Digest): seq<Path>
    requires |paths| == |hashes|
  {
    if paths == [] then []
    else
      var n := |paths| - 1;
      PathsWith(paths[..n], hashes[..n], h) + (if hashes[n] == Some(h) then [paths[n]] else [])
  }

  /** The position at which `h` is first met, or `|hashes|` when it never is. */
  function FirstPosition(hashes: seq<Option<Digest>>, h: Digest): nat
  {
    var ps := PositionsOf(hashes, h);
    if ps == [] then |hashes| else ps[0]
  }

  /** Keys listed in the order in which their fingerprints were first met. */
  predicate InDiscoveryOrder(keys: seq<Digest>, hashes: seq<Option<Digest>>)
  {
    forall i, j :: 0 <= i < j < |keys| ==> FirstPosition(hashes, keys[i]) < FirstPosition(hashes, keys[j])
  }

  /** No path is listed twice, whether under one fingerprint or under two. */
  ghost predicate NoSharedPaths(g: Groups)
  {
    forall h, h', a, b ::
      (h in g.lists && h' in g.lists && 0 <= a < |g.lists[h]| && 0 <= b < |g.lists[h']| &&
       g.lists[h][a] == g.lists[h'][b]) ==> h == h' && a == b
  }

  // ---------------------------------------------------------------------------------------
  // Lemmas.

  /** The positions with result `h` are increasing, lie in the enumeration, and are exactly
      the positions whose result is `h`. */
  lemma {:induction false} PositionsOfFacts(hashes: seq<Option<Digest>>, h: Digest)
    ensures var ps := PositionsOf(hashes, h);
      && (forall a, b :: 0 <= a < b < |ps| ==> ps[a] < ps[b])
      && (forall a :: 0 <= a < |ps| ==> ps[a] < |hashes|)
      && (forall i :: 0 <= i < |hashes| ==> (hashes[i] == Some(h) <==> i in ps))
  {
    if hashes != [] {
      var n := |hashes| - 1;
      PositionsOfFacts(hashes[..n], h);
      assert forall i :: 0 <= i < n ==> hashes[..n][i] == hashes[i];
    }
  }

  /** The paths with result `h` are the paths at the positions with result `h`. */
  lemma {:induction false} PathsWithAtPositions(paths: seq<Path>, hashes: seq<Option<Digest>>, h: Digest)
    requires |paths| == |hashes|
    ensures var ps := PositionsOf(hashes, h);
      && |PathsWith(paths, hashes, h)| == |ps|
      && (forall k :: 0 <= k < |ps| ==> ps[k] < |paths| && PathsWith(paths, hashes, h)[k] == paths[ps[k]])
  {
    PositionsOfFacts(hashes, h);
    if paths != [] {
      var n := |paths| - 1;
      PathsWithAtPositions(paths[..n], hashes[..n], h);
      PositionsOfFacts(hashes[..n], h);
    }
  }

  /** Appending one more result keeps the first position of a fingerprint already met. */
  lemma FirstPositionExtends(hashes: seq<Option<Digest>>, h: Digest)
    requires hashes != []
    requires PositionsOf(hashes[..|hashes| - 1], h) != []
    ensures FirstPosition(hashes, h) == FirstPosition(hashes[..|hashes| - 1], h) < |hashes| - 1
  {
    PositionsOfFacts(hashes[..|hashes| - 1], h);
  }

  /** The dict built by the loop lists each key once, and lists exactly its keys. */
  lemma {:induction false} CollectValid(paths: seq<Path>, hashes: seq<Option<Digest>>)
    requires |paths| == |hashes|
    ensures Collect(paths, hashes).Valid()
  {
    if paths != [] {
      var n := |paths| - 1;
      var g0 := Collect(paths[..n], hashes[..n]);
      CollectValid(paths[..n], hashes[..n]);
      if Truthy(hashes[n]) && hashes[n].value !in g0.lists {
        assert hashes[n].value !in g0.keys;
      }
    }
  }

  /** The dict built by the loop has a key for every truthy fingerprint met, and no other. */
  lemma {:induction false} CollectKeys(paths: seq<Path>, hashes: seq<Option<Digest>>, h: Digest)
    requires |paths| == |hashes|
    ensures h in Collect(paths, hashes).lists <==> h != "" && PositionsOf(hashes, h) != []
  {
    if paths != [] {
      var n := |paths| - 1;
      CollectKeys(paths[..n], hashes[..n], h);
      assert hashes[..n] == hashes[..|hashes| - 1];
    }
  }

  /** Under each key, the dict built by the loop holds exactly the paths with that
      fingerprint, in enumeration order. */
  lemma {:induction false} CollectLists(paths: seq<Path>, hashes: seq<Option<Digest>>, h: Digest)
    requires |paths| == |hashes|
    requires h in Collect(paths, hashes).lists
    ensures Collect(paths, hashes).lists[h] == PathsWith(paths, hashes, h)
  {
    var n := |paths| - 1;
    var g0 := Collect(paths[..n], hashes[..n]);
    CollectKeys(paths[..n], hashes[..n], h);
    if h in g0.lists {
      CollectLists(paths[..n], hashes[..n], h);
    } else {
      PathsWithAtPositions(paths[..n], hashes[..n], h);
    }
  }

  /** The keys of the dict built by the loop are in the order their fingerprints were first met. */
  lemma {:induction false} CollectOrder(paths: seq<Path>, hashes: seq<Option<Digest>>)
    requires |paths| == |hashes|
    ensures InDiscoveryOrder(Collect(paths, hashes).keys, hashes)
  {
    if paths != [] {
      var n := |paths| - 1;
      var g0 := Collect(paths[..n], hashes[..n]);
      CollectOrder(paths[..n], hashes[..n]);
      CollectValid(paths[..n], hashes[..n]);
      var g := Collect(paths, hashes);
      assert hashes[..n] == hashes[..|hashes| - 1];
      forall k | k in g0.lists
        ensures FirstPosition(hashes, k) == FirstPosition(hashes[..n], k) < n
      {
        CollectKeys(paths[..n], hashes[..n], k);
        FirstPositionExtends(hashes, k);
      }
      if Truthy(hashes[n]) && hashes[n].value !in g0.lists {
        var h := hashes[n].value;
        CollectKeys(paths[..n], hashes[..n], h);
        assert PositionsOf(hashes[..n], h) == [];
        assert PositionsOf(hashes, h) == [n];
        forall i, j | 0 <= i < j < |g.keys|
          ensures FirstPosition(hashes, g.keys[i]) < FirstPosition(hashes, g.keys[j])
        {
          if j == |g.keys| - 1 {
            assert g.keys[i] == g0.keys[i] && g0.keys[i] in g0.lists;
          } else {
            assert g.keys[i] == g0.keys[i] && g.keys[j] == g0.keys[j];
            assert g0.keys[i] in g0.lists && g0.keys[j] in g0.lists;
          }
        }
      } else {
        forall i, j | 0 <= i < j < |g.keys|
          ensures FirstPosition(hashes, g.keys[i]) < FirstPosition(hashes, g.keys[j])
        {
          assert g0.keys[i] in g0.lists && g0.keys[j] in g0.lists;
        }
      }
    }
  }

  /** The dict built by the loop: each key once, in order of first discovery; a key for every
      truthy fingerprint met and no other; under each key, exactly the paths with that
      fingerprint, in enumeration order. */
  lemma {:induction false} CollectCharacterised(paths: seq<Path>, hashes: seq<Option<Digest>>)
    requires |paths| == |hashes|
    ensures var g := Collect(paths, hashes);
      && g.Valid()
      && (forall h :: h in g.lists <==> h != "" && PositionsOf(hashes, h) != [])
      && (forall h :: h in g.lists ==> g.lists[h] == PathsWith(paths, hashes, h))
      && InDiscoveryOrder(g.keys, hashes)
  {
    CollectValid(paths, hashes);
    forall h
      ensures h in Collect(paths, hashes).lists <==> h != "" && PositionsOf(hashes, h) != []
    {
      CollectKeys(paths, hashes, h);
    }
    forall h | h in Collect(paths, hashes).lists
      ensures Collect(paths, hashes).lists[h] == PathsWith(paths, hashes, h)
    {
      CollectLists(paths, hashes, h);
    }
    CollectOrder(paths, hashes);
  }

  /** The filter keeps exactly the keys whose list is longer than one, and keeps distinct keys
      distinct. */
  lemma {:induction false} RepeatedKeysMembers(keys: seq<Digest>, lists: map<Digest, seq<Path>>)
    ensures var r := RepeatedKeys(keys, lists);
      && (forall h :: h in r <==> h in keys && h in lists && |lists[h]| > 1)
      && ((forall i, j :: 0 <= i < j < |keys| ==> keys[i] != keys[j]) ==>
          forall i, j :: 0 <= i < j < |r| ==> r[i] != r[j])
  {
    if keys != [] {
      RepeatedKeysMembers(keys[1..], lists);
      assert keys == [keys[0]] + keys[1..];
      if forall i, j :: 0 <= i < j < |keys| ==> keys[i] != keys[j] {
        forall i, j | 0 <= i < j < |keys[1..]|
          ensures keys[1..][i] != keys[1..][j]
        {
          assert keys[1..][i] == keys[i + 1] && keys[1..][j] == keys[j + 1];
        }
        forall j | 0 <= j < |keys[1..]|
          ensures keys[1..][j] != keys[0]
        {
          assert keys[1..][j] == keys[j + 1];
        }
      }
    }
  }

  /** In a key list in discovery order, every key after the first was discovered later. */
  lemma LaterKeysDiscoveredLater(keys: seq<Digest>, hashes: seq<Option<Digest>>, y: Digest)
    requires keys != [] && InDiscoveryOrder(keys, hashes)
    requires y in keys[1..]
    ensures FirstPosition(hashes, keys[0]) < FirstPosition(hashes, y)
  {
    var j :| 0 <= j < |keys[1..]| && keys[1..][j] == y;
    assert keys[j + 1] == y;
  }

  /** Dropping the first key of a distinct key list in discovery order leaves one. */
  lemma TailInDiscoveryOrder(keys: seq<Digest>, hashes: seq<Option<Digest>>)
    requires keys != []
    requires forall i, j :: 0 <= i < j < |keys| ==> keys[i] != keys[j]
    requires InDiscoveryOrder(keys, hashes)
    ensures forall i, j :: 0 <= i < j < |keys[1..]| ==> keys[1..][i] != keys[1..][j]
    ensures InDiscoveryOrder(keys[1..], hashes)
  {
    forall i, j | 0 <= i < j < |keys[1..]|
      ensures keys[1..][i] != keys[1..][j]
      ensures FirstPosition(hashes, keys[1..][i]) < FirstPosition(hashes, keys[1..][j])
    {
      assert keys[1..][i] == keys[i + 1] && keys[1..][j] == keys[j + 1];
    }
  }

  /** Putting in front a key discovered before all the others keeps discovery order. */
  lemma PrependInDiscoveryOrder(x: Digest, rest: seq<Digest>, hashes: seq<Option<Digest>>)
    requires InDiscoveryOrder(rest, hashes)
    requires forall y :: y in rest ==> FirstPosition(hashes, x) < FirstPosition(hashes, y)
    ensures InDiscoveryOrder([x] + rest, hashes)
  {
    var r := [x] + rest;
    forall i, j | 0 <= i < j < |r|
      ensures FirstPosition(hashes, r[i]) < FirstPosition(hashes, r[j])
    {
      assert r[j] == rest[j - 1];
      if i > 0 {
        assert r[i] == rest[i - 1];
      }
    }
  }

  /** The filter keeps a key exactly when its list is longer than one, keeps the keys distinct,
      and keeps their order. */
  lemma {:induction false} RepeatedKeysFacts(keys: seq<Digest>, lists: map<Digest, seq<Path>>, hashes: seq<Option<Digest>>)
    requires forall i, j :: 0 <= i < j < |keys| ==> keys[i] != keys[j]
    requires InDiscoveryOrder(keys, hashes)
    ensures var r := RepeatedKeys(keys, lists);
      && (forall h :: h in r <==> h in keys && h in lists && |lists[h]| > 1)
      && (forall i, j :: 0 <= i < j < |r| ==> r[i] != r[j])
      && InDiscoveryOrder(r, hashes)
  {
    RepeatedKeysMembers(keys, lists);
    if keys != [] {
      TailInDiscoveryOrder(keys, hashes);
      RepeatedKeysFacts(keys[1..], lists, hashes);
      var rest := RepeatedKeys(keys[1..], lists);
      if keys[0] in lists && |lists[keys[0]]| > 1 {
        forall y | y in rest
          ensures FirstPosition(hashes, keys[0]) < FirstPosition(hashes, y)
        {
          LaterKeysDiscoveredLater(keys, hashes, y);
        }
        PrependInDiscoveryOrder(keys[0], rest, hashes);
      }
    }
  }

  /** What both scanning functions return: each fingerprint shared by two or more successfully
      hashed paths, and no other, listed in order of first discovery; under each, exactly the
      paths with that fingerprint, in enumeration order. */
  lemma DuplicatesCharacterised(paths: seq<Path>, hashes: seq<Option<Digest>>)
    requires |paths| == |hashes|
    ensures var d := Duplicates(paths, hashes);
      && d.Valid()
      && (forall h :: h in d.lists <==> h != "" && |PositionsOf(hashes, h)| >= 2)
      && (forall h :: h in d.lists ==> d.lists[h] == PathsWith(paths, hashes, h))
      && InDiscoveryOrder(d.keys, hashes)
  {
    var g := Collect(paths, hashes);
    CollectCharacterised(paths, hashes);
    RepeatedKeysFacts(g.keys, g.lists, hashes);
    forall h | h in g.lists
      ensures |g.lists[h]| == |PositionsOf(hashes, h)|
    {
      PathsWithAtPositions(paths, hashes, h);
    }
  }

  /** Every group in the result has at least two paths. */
  lemma GroupsHaveTwoOrMore(paths: seq<Path>, hashes: seq<Option<Digest>>, h: Digest)
    requires |paths| == |hashes|
    requires h in Duplicates(paths, hashes).lists
    ensures |Duplicates(paths, hashes).lists[h]| >= 2
  {
  }

  /** The group under `h` holds exactly the paths whose hash result is `h`, each once, in
      the order in which the enumeration met them. */
  lemma GroupIsPathsWithKeyInOrder(paths: seq<Path>, hashes: seq<Option<Digest>>, h: Digest)
    requires |paths| == |hashes|
    requires h in Duplicates(paths, hashes).lists
    ensures var group, ps := Duplicates(paths, hashes).lists[h], PositionsOf(hashes, h);
      && |group| == |ps|
      && (forall k :: 0 <= k < |ps| ==> ps[k] < |paths| && group[k] == paths[ps[k]] && hashes[ps[k]] == Some(h))
      && (forall a, b :: 0 <= a < b < |ps| ==> ps[a] < ps[b])
      && (forall i :: 0 <= i < |hashes| && hashes[i] == Some(h) ==> i in ps)
  {
    DuplicatesCharacterised(paths, hashes);
    PathsWithAtPositions(paths, hashes, h);
    PositionsOfFacts(hashes, h);
  }

  /** Every member of the group under `h` is a path whose computed hash is `h`. */
  lemma MembersCarryKey(paths: seq<Path>, hashes: seq<Option<Digest>>, h: Digest, p: Path)
    requires |paths| == |hashes|
    requires h in Duplicates(paths, hashes).lists && p in Duplicates(paths, hashes).lists[h]
    ensures h != "" && exists i :: 0 <= i < |paths| && paths[i] == p && hashes[i] == Some(h)
  {
    GroupIsPathsWithKeyInOrder(paths, hashes, h);
    DuplicatesCharacterised(paths, hashes);
    var group, ps := Duplicates(paths, hashes).lists[h], PositionsOf(hashes, h);
    var k :| 0 <= k < |group| && group[k] == p;
    assert paths[ps[k]] == p && hashes[ps[k]] == Some(h);
  }

  /** In a walk that lists every path once, a grouped path sits in the group of its own
      fingerprint, and some other path has that fingerprint too. */
  lemma GroupedPathSharesItsHash(paths: seq<Path>, hashes: seq<Option<Digest>>, i: nat, h: Digest)
    requires |paths| == |hashes| && Distinct(paths) && i < |paths|
    requires h in Duplicates(paths, hashes).lists && paths[i] in Duplicates(paths, hashes).lists[h]
    ensures hashes[i] == Some(h) && h != ""
    ensures exists j :: 0 <= j < |hashes| && j != i && hashes[j] == hashes[i]
  {
    MembersCarryKey(paths, hashes, h, paths[i]);
    var j :| 0 <= j < |paths| && paths[j] == paths[i] && hashes[j] == Some(h);
    assert j == i;
    DuplicatesCharacterised(paths, hashes);
    var ps := PositionsOf(hashes, h);
    PositionsOfFacts(hashes, h);
    var k := if ps[0] == i then ps[1] else ps[0];
    assert k in ps && k != i;
  }

  /** A path whose truthy hash another path shares is in the group of that fingerprint. */
  lemma SharedHashIsGrouped(paths: seq<Path>, hashes: seq<Option<Digest>>, i: nat, j: nat)
    requires |paths| == |hashes| && i < |paths| && j < |paths| && i != j
    requires Truthy(hashes[i]) && hashes[j] == hashes[i]
    ensures var d := Duplicates(paths, hashes);
      hashes[i].value in d.lists && paths[i] in d.lists[hashes[i].value]
  {
    var h := hashes[i].value;
    var ps := PositionsOf(hashes, h);
    PositionsOfFacts(hashes, h);
    assert i in ps && j in ps;
    var a :| 0 <= a < |ps| && ps[a] == i;
    var b :| 0 <= b < |ps| && ps[b] == j;
    assert a != b;
    DuplicatesCharacterised(paths, hashes);
    GroupIsPathsWithKeyInOrder(paths, hashes, h);
    assert Duplicates(paths, hashes).lists[h][a] == paths[i];
  }

  /** In a walk that lists every path once, the path at position `i` belongs to a group exactly
      when its hash succeeded and some other path has the same hash; it then belongs to the
      group of its own fingerprint and to no other. */
  lemma PathInGroupIff(paths: seq<Path>, hashes: seq<Option<Digest>>, i: nat)
    requires |paths| == |hashes| && Distinct(paths) && i < |paths|
    ensures var d := Duplicates(paths, hashes);
      && ((exists h :: h in d.lists && paths[i] in d.lists[h]) <==>
          Truthy(hashes[i]) && exists j :: 0 <= j < |hashes| && j != i && hashes[j] == hashes[i])
      && (forall h :: h in d.lists && paths[i] in d.lists[h] ==> hashes[i] == Some(h))
  {
    var d := Duplicates(paths, hashes);
    forall h | h in d.lists && paths[i] in d.lists[h]
      ensures hashes[i] == Some(h)
    {
      GroupedPathSharesItsHash(paths, hashes, i, h);
    }
    if Truthy(hashes[i]) && exists j :: 0 <= j < |hashes| && j != i && hashes[j] == hashes[i] {
      var j :| 0 <= j < |hashes| && j != i && hashes[j] == hashes[i];
      SharedHashIsGrouped(paths, hashes, i, j);
    }
    if exists h :: h in d.lists && paths[i] in d.lists[h] {
      var h :| h in d.lists && paths[i] in d.lists[h];
      GroupedPathSharesItsHash(paths, hashes, i, h);
    }
  }

  /** A path whose hash computation failed (or gave the empty string) is in no group. */
  lemma FailedPathsExcluded(paths: seq<Path>, hashes: seq<Option<Digest>>, i: nat)
    requires |paths| == |hashes| && Distinct(paths) && i < |paths|
    requires !Truthy(hashes[i])
    ensures forall h :: h in Duplicates(paths, hashes).lists ==> paths[i] !in Duplicates(paths, hashes).lists[h]
  {
    PathInGroupIff(paths, hashes, i);
  }

  /** In a walk that lists every path once, no path appears twice in the result, neither
      within a group nor across groups. */
  lemma NoPathTwice(paths: seq<Path>, hashes: seq<Option<Digest>>)
    requires |paths| == |hashes| && Distinct(paths)
    ensures NoSharedPaths(Duplicates(paths, hashes))
  {
    var d := Duplicates(paths, hashes);
    forall h, h', a, b | h in d.lists && h' in d.lists && 0 <= a < |d.lists[h]| && 0 <= b < |d.lists[h']| &&
      d.lists[h][a] == d.lists[h'][b]
      ensures h == h' && a == b
    {
      GroupIsPathsWithKeyInOrder(paths, hashes, h);
      GroupIsPathsWithKeyInOrder(paths, hashes, h');
      var ps, ps' := PositionsOf(hashes, h), PositionsOf(hashes, h');
      assert paths[ps[a]] == paths[ps'[b]];
      assert ps[a] == ps'[b];
      assert h == h';
      PositionsOfFacts(hashes, h);
    }
  }
}
