/** `delete_duplicates`: remove the files of a list, one after another. */
module Deletion {
  import opened Common
  import opened FileRecords
  import opened SignatureIndex
  import opened FileSystems

  /** The paths of a list of records, in order. The ensures only expose
      the elements to callers. */
  function PathsOf(files: seq<FileRecord>): (paths: seq<Path>)
    ensures |paths| == |files|
    ensures forall i :: 0 <= i < |files| ==> paths[i] == files[i].path
  {
    seq(|files|, i requires 0 <= i < |files| => files[i].path)
  }

  /** `os.remove` of each path in turn: the first path with no file raises
      FileNotFoundError, which ends the loop with the earlier removals
      done. That is the only exception, and it names a path with no
      file. */
  function DeleteAll(m: Store, paths: seq<Path>): (r: (Store, Outcome))
    ensures r.1.Fail? ==> r.1.error.FileNotFoundError? && r.1.error.path !in r.0
  {
    if paths == [] then (m, Pass)
    else if paths[0] !in m then (m, Fail(FileNotFoundError(paths[0])))
    else DeleteAll(m - {paths[0]}, paths[1..])
  }

  /** `delete_duplicates(duplicates)`. */
  method DeleteDuplicates(fs: FileSystem, duplicates: seq<FileRecord>) returns (o: Outcome)
    modifies fs
    ensures (fs.files, o) == DeleteAll(old(fs.files), PathsOf(duplicates))
  {
    ghost var paths := PathsOf(duplicates);
    o := Pass;
    for i := 0 to |duplicates|
      invariant DeleteAll(fs.files, paths[i..]) == DeleteAll(old(fs.files), paths)
    {
      assert paths[i..][1..] == paths[i + 1..];
      var r := fs.Remove(duplicates[i].path);
      if r.Fail? {
        o := r;
        return;
      }
    }
  }

  /** The removals all succeed exactly when the paths are distinct files
      of the store. */
  lemma {:induction false} DeleteAllSucceeds(m: Store, paths: seq<Path>)
    ensures DeleteAll(m, paths).1 == Pass <==>
              Distinct(paths) && forall i :: 0 <= i < |paths| ==> paths[i] in m
  {
    if paths != [] {
      DeleteAllSucceeds(m - {paths[0]}, paths[1..]);
      if paths[0] in m && Distinct(paths[1..]) && paths[0] !in paths[1..] {
        assert Distinct(paths) by {
          forall i, j | 0 <= i < j < |paths|
            ensures paths[i] != paths[j]
          {
            if i > 0 {
              assert paths[i] == paths[1..][i - 1] && paths[j] == paths[1..][j - 1];
            } else {
              assert paths[j] in paths[1..];
            }
          }
        }
      }
      if Distinct(paths) {
        assert Distinct(paths[1..]) by {
          forall i, j | 0 <= i < j < |paths[1..]|
            ensures paths[1..][i] != paths[1..][j]
          {
            assert paths[1..][i] == paths[i + 1] && paths[1..][j] == paths[j + 1];
          }
        }
        forall k | 0 <= k < |paths[1..]|
          ensures paths[1..][k] != paths[0]
        {
          assert paths[1..][k] == paths[k + 1];
        }
      }
    }
  }

  /** When they succeed, the removals take away exactly the listed paths. */
  lemma {:induction false} DeleteAllRemovesListed(m: Store, paths: seq<Path>)
    requires DeleteAll(m, paths).1 == Pass
    ensures DeleteAll(m, paths).0 == m - set i | 0 <= i < |paths| :: paths[i]
  {
    if paths != [] {
      DeleteAllRemovesListed(m - {paths[0]}, paths[1..]);
      var rest := set i | 0 <= i < |paths[1..]| :: paths[1..][i];
      var all := set i | 0 <= i < |paths| :: paths[i];
      assert all == {paths[0]} + rest by {
        forall p | p in all
          ensures p in {paths[0]} + rest
        {
          var i :| 0 <= i < |paths| && paths[i] == p;
          if i > 0 {
            assert paths[1..][i - 1] == p;
          }
        }
        forall p | p in rest
          ensures p in all
        {
          var i :| 0 <= i < |paths[1..]| && paths[1..][i] == p;
          assert paths[i + 1] == p;
        }
      }
      assert m - all == (m - {paths[0]}) - rest;
    }
  }

  /** Whatever the outcome, removal touches nothing but the listed paths:
      no file appears, and an unlisted file keeps its content. */
  lemma {:induction false} DeleteAllKeepsOthers(m: Store, paths: seq<Path>, p: Path)
    requires forall i :: 0 <= i < |paths| ==> paths[i] != p
    ensures DeleteAll(m, paths).0.Keys <= m.Keys
    ensures p in m ==> p in DeleteAll(m, paths).0 && DeleteAll(m, paths).0[p] == m[p]
  {
    if paths != [] && paths[0] in m {
      forall i | 0 <= i < |paths[1..]|
        ensures paths[1..][i] != p
      {
        assert paths[1..][i] == paths[i + 1];
      }
      DeleteAllKeepsOthers(m - {paths[0]}, paths[1..], p);
    }
  }

  /** The paths of records built along a walk are the walk itself. */
  lemma PathsOfRecords(host: Host, fs: Store, walk: seq<Path>)
    requires WalkIn(fs, walk)
    ensures PathsOf(Records(host, fs, walk)) == walk
  {
  }

  /** Selecting from records with distinct paths yields distinct paths. */
  lemma {:induction false} SelectKeepsPathsDistinct(recs: seq<FileRecord>, keys: set<Signature>)
    requires Distinct(PathsOf(recs))
    ensures Distinct(PathsOf(Select(recs, keys)))
    ensures forall i :: 0 <= i < |Select(recs, keys)| ==> Select(recs, keys)[i] in recs
  {
    if recs != [] {
      var init := recs[..|recs| - 1];
      var last := recs[|recs| - 1];
      assert PathsOf(init) == PathsOf(recs)[..|recs| - 1];
      SelectKeepsPathsDistinct(init, keys);
      var sel := Select(init, keys);
      if last.signature in keys {
        var out := Select(recs, keys);
        assert out == sel + [last];
        forall i | 0 <= i < |sel|
          ensures sel[i].path != last.path
        {
          var k :| 0 <= k < |init| && init[k] == sel[i];
          assert PathsOf(recs)[k] == sel[i].path && PathsOf(recs)[|recs| - 1] == last.path;
        }
        forall i, j | 0 <= i < j < |out|
          ensures PathsOf(out)[i] != PathsOf(out)[j]
        {
          if j < |sel| {
            assert PathsOf(out)[i] == PathsOf(sel)[i] && PathsOf(out)[j] == PathsOf(sel)[j];
          }
        }
        forall i | 0 <= i < |out|
          ensures out[i] in recs
        {
          if i < |sel| {
            assert out[i] == sel[i];
          }
        }
      }
    }
  }

  /** `compare_directories` then `delete_duplicates`, over a walk that
      visits each path once: nothing raises, every reported file is gone and
      every other file is kept as it was. */
  lemma CompareThenDelete(host: Host, fs: Store, walk1: seq<Path>, walk2: seq<Path>)
    requires WalkIn(fs, walk1) && WalkIn(fs, walk2) && Distinct(walk2)
    ensures var duplicates := Select(Records(host, fs, walk2), Signatures(Records(host, fs, walk1)));
            var paths := PathsOf(duplicates);
            DeleteAll(fs, paths) == (fs - set i | 0 <= i < |paths| :: paths[i], Pass)
  {
    var recs := Records(host, fs, walk2);
    var duplicates := Select(recs, Signatures(Records(host, fs, walk1)));
    var paths := PathsOf(duplicates);
    PathsOfRecords(host, fs, walk2);
    SelectKeepsPathsDistinct(recs, Signatures(Records(host, fs, walk1)));
    forall i | 0 <= i < |paths|
      ensures paths[i] in fs
    {
      assert duplicates[i] in recs;
    }
    DeleteAllSucceeds(fs, paths);
    DeleteAllRemovesListed(fs, paths);
  }
}
