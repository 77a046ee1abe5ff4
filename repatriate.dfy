/** `repatriate_files(dir1, dir2)`: move into `dir1` the files of `dir2`
    whose signature no file of `dir1` has. Modelled twice: as the code is
    written, where a name already taken in `dir1` always raises KeyError,
    and as evidently intended, where the incoming file replaces the one at
    its destination only when it was modified more recently. */
module Repatriation {
  import opened Common
  import opened Text
  import opened Paths
  import opened FileRecords
  import opened SignatureIndex
  import opened FileSystems
  import opened Compare

  /** `index[key]` on a dict: the value, or KeyError for a missing key. */
  function Lookup(index: map<Signature, FileRecord>, key: Signature): Result<FileRecord>
  {
    if key in index then Ok(index[key]) else Err(KeyError(key))
  }

  // ---------------------------------------------------------------------
  // As written
  // ---------------------------------------------------------------------

  /** The date test of the replacement branch as written,
      `file_obj.date > other.date`: Python's order on the `time.ctime`
      strings. */
  predicate NewerAsWritten(incoming: FileRecord, existing: FileRecord)
  {
    StrLess(existing.date, incoming.date)
  }

  /** The order on `ctime` strings is not the order in time: a file dated
      3 January 2025 does not count as newer than one dated 30 December
      2024. */
  lemma CtimeComparisonNotChronological(incoming: FileRecord, existing: FileRecord)
    requires incoming.date == "Fri Jan  3 00:00:00 2025"
    requires existing.date == "Mon Dec 30 00:00:00 2024"
    ensures !NewerAsWritten(incoming, existing)
  {
    CtimeOrderNotChronological();
    StrLessIrreflexive(existing.date);
    if NewerAsWritten(incoming, existing) {
      StrLessTransitive(existing.date, incoming.date, existing.date);
    }
  }

  /** One pass of the loop over `dir2` on the store `m`, with `index` the
      dict built from `dir1`. Of the record `File(file_path)` builds, only
      the signature and the name matter here; building it for a file that
      is no longer there raises FileNotFoundError. A file whose signature is
      indexed stays. Otherwise, when its name is free in `dir1` it is
      moved there; when the name is taken, the date test reads
      `index[signature]`, a key the enclosing test has just found missing,
      so it raises KeyError: the comparison and the `os.replace` it guards
      can never run. A pass that raises changes nothing, and no pass
      changes the number of files. */
  function RepatriateStep(host: Host, index: map<Signature, FileRecord>, dir1: Path, m: Store, p: Path)
    : (r: (Store, Outcome))
    ensures r.1.Fail? ==> r.0 == m
    ensures |r.0| == |m|
  {
    if p !in m then (m, Fail(FileNotFoundError(p)))
    else
      var signature := host.md5(m[p].content);
      if signature in index then (m, Pass)
      else
        var newPath := Join(dir1, Basename(p));
        if newPath in m then
          match Lookup(index, signature)
          case Err(e) => (m, Fail(e))
          case Ok(_) => assert false; (m, Pass)
        else
          MovedCount(m, p, newPath);
          (Moved(m, p, newPath), Pass)
  }

  /** The loop over `dir2`: one step per file, in visit order, until one
      raises. As written it only ever moves a file to a free name, so the
      number of files never changes: nothing is lost or overwritten. */
  function RepatriateAll(host: Host, index: map<Signature, FileRecord>, dir1: Path, m: Store, walk: seq<Path>)
    : (r: (Store, Outcome))
    ensures |r.0| == |m|
    decreases |walk|
  {
    if walk == [] then (m, Pass)
    else
      var (next, o) := RepatriateStep(host, index, dir1, m, walk[0]);
      if o.Fail? then (next, o) else RepatriateAll(host, index, dir1, next, walk[1..])
  }

  /** `repatriate_files(dir1, dir2)` as written. `walk1` and `walk2` are
      the files `os.walk` yields under `dir1` and `dir2`. */
  method RepatriateFiles(fs: FileSystem, host: Host, dir1: Path, walk1: seq<Path>, walk2: seq<Path>)
    returns (o: Outcome)
    requires WalkIn(fs.files, walk1)
    modifies fs
    ensures (fs.files, o)
            == RepatriateAll(host, CanonicalIndex(Records(host, old(fs.files), walk1)), dir1, old(fs.files), walk2)
  {
    var index := BuildCanonicalIndex(host, fs.files, walk1);
    o := Pass;
    for i := 0 to |walk2|
      invariant RepatriateAll(host, index, dir1, fs.files, walk2[i..])
                == RepatriateAll(host, index, dir1, old(fs.files), walk2)
    {
      var filePath := walk2[i];
      assert walk2[i..][1..] == walk2[i + 1..];
      if !fs.Exists(filePath) {
        o := Fail(FileNotFoundError(filePath));
        return;
      }
      var file := NewFile(host, fs.files, filePath);
      if file.signature !in index {
        var newPath := Join(dir1, file.name);
        if fs.Exists(newPath) {
          var known := Lookup(index, file.signature);
          match known
          case Err(e) =>
            o := Fail(e);
            return;
          case Ok(_) =>
            assert false;
        } else {
          var _ := fs.Move(filePath, newPath);
        }
      }
    }
  }

  /** Whenever a file of `dir2` is new to `dir1` and its name is taken
      there, the pass raises KeyError on its signature. */
  lemma CollisionRaisesKeyError(host: Host, index: map<Signature, FileRecord>, dir1: Path, m: Store, p: Path)
    requires p in m && host.md5(m[p].content) !in index
    requires Join(dir1, Basename(p)) in m
    ensures RepatriateStep(host, index, dir1, m, p) == (m, Fail(KeyError(host.md5(m[p].content))))
  {
  }

  /** A file new to `dir1` whose name is free there is moved under that
      name, with its content and date. */
  lemma NewFileMoved(host: Host, index: map<Signature, FileRecord>, dir1: Path, m: Store, p: Path)
    requires p in m && host.md5(m[p].content) !in index
    requires Join(dir1, Basename(p)) !in m
    ensures var dest := Join(dir1, Basename(p));
            RepatriateStep(host, index, dir1, m, p) == (Moved(m, p, dest), Pass)
            && Basename(dest) == Basename(p) && Moved(m, p, dest)[dest] == m[p]
  {
    BasenameOfJoin(dir1, Basename(p));
  }

  /** A file whose signature `dir1` already has is left where it is. */
  lemma KnownFileStays(host: Host, index: map<Signature, FileRecord>, dir1: Path, m: Store, p: Path)
    requires p in m && host.md5(m[p].content) in index
    ensures RepatriateStep(host, index, dir1, m, p) == (m, Pass)
  {
  }

  /** A pass never replaces or removes a file other than the one it
      visits. */
  lemma StepKeepsOthers(host: Host, index: map<Signature, FileRecord>, dir1: Path, m: Store, p: Path, q: Path)
    requires q in m && q != p
    ensures q in RepatriateStep(host, index, dir1, m, p).0
    ensures RepatriateStep(host, index, dir1, m, p).0[q] == m[q]
  {
  }

  /** As written, repatriation never overwrites: every file the walk of
      `dir2` does not visit ends up where it was, with the same content,
      whatever the outcome. */
  lemma {:induction false} RepatriateKeepsUnvisited(host: Host, index: map<Signature, FileRecord>, dir1: Path,
                                                    m: Store, walk: seq<Path>, q: Path)
    requires q in m && forall i :: 0 <= i < |walk| ==> walk[i] != q
    ensures q in RepatriateAll(host, index, dir1, m, walk).0
    ensures RepatriateAll(host, index, dir1, m, walk).0[q] == m[q]
    decreases |walk|
  {
    if walk != [] {
      var (next, o) := RepatriateStep(host, index, dir1, m, walk[0]);
      StepKeepsOthers(host, index, dir1, m, walk[0], q);
      if !o.Fail? {
        forall i | 0 <= i < |walk[1..]|
          ensures walk[1..][i] != q
        {
          assert walk[1..][i] == walk[i + 1];
        }
        RepatriateKeepsUnvisited(host, index, dir1, next, walk[1..], q);
      }
    }
  }

  /** The loop over a walk of one file is that file's pass. */
  lemma RepatriateOne(host: Host, index: map<Signature, FileRecord>, dir1: Path, m: Store, q: Path)
    ensures RepatriateAll(host, index, dir1, m, [q]) == RepatriateStep(host, index, dir1, m, q)
  {
    assert [q][0] == q && [q][1..] == [];
  }

  /** The loop over a walk of two files. */
  lemma RepatriateTwo(host: Host, index: map<Signature, FileRecord>, dir1: Path, m: Store, p: Path, q: Path)
    ensures var (next, o) := RepatriateStep(host, index, dir1, m, p);
            RepatriateAll(host, index, dir1, m, [p, q])
            == if o.Fail? then (next, o) else RepatriateStep(host, index, dir1, next, q)
  {
    assert [p, q][0] == p && [p, q][1..] == [q];
    RepatriateOne(host, index, dir1, RepatriateStep(host, index, dir1, m, p).0, q);
  }

  /** Two files of `dir2` with the same name and no signature in `dir1`
      (two copies of one new file in different sub-directories, say): the
      first is moved, and the second then finds its name taken and raises
      KeyError. */
  lemma SecondSameNameRaises(host: Host, index: map<Signature, FileRecord>, dir1: Path, m: Store, p: Path, q: Path)
    requires p in m && q in m && p != q && Basename(p) == Basename(q)
    requires host.md5(m[p].content) !in index && host.md5(m[q].content) !in index
    requires Join(dir1, Basename(p)) !in m
    ensures var dest := Join(dir1, Basename(p));
            RepatriateAll(host, index, dir1, m, [p, q])
            == (Moved(m, p, dest), Fail(KeyError(host.md5(m[q].content))))
  {
    var dest := Join(dir1, Basename(p));
    var moved := Moved(m, p, dest);
    var raised := Fail(KeyError(host.md5(m[q].content)));
    assert RepatriateStep(host, index, dir1, m, p) == (moved, Pass) by {
      NewFileMoved(host, index, dir1, m, p);
    }
    assert RepatriateStep(host, index, dir1, moved, q) == (moved, raised) by {
      assert q != dest && q in moved && moved[q] == m[q];
      CollisionRaisesKeyError(host, index, dir1, moved, q);
    }
    RepatriateTwo(host, index, dir1, m, p, q);
  }

  // ---------------------------------------------------------------------
  // As evidently intended
  // ---------------------------------------------------------------------

  /** `incoming` was modified more recently than `existing`. */
  predicate Newer(incoming: FileData, existing: FileData)
  {
    incoming.mtime > existing.mtime
  }

  /** One pass as evidently intended: a file new to `dir1` is moved there
      when its name is free, and replaces the file already bearing its name
      only when it was modified more recently than that file. */
  function RepatriateStepFixed(host: Host, index: map<Signature, FileRecord>, dir1: Path, m: Store, p: Path)
    : (r: (Store, Outcome))
    ensures r.1.Fail? ==> r.0 == m
    ensures |r.0| <= |m|
  {
    if p !in m then (m, Fail(FileNotFoundError(p)))
    else
      var signature := host.md5(m[p].content);
      if signature in index then (m, Pass)
      else
        var newPath := Join(dir1, Basename(p));
        if newPath in m && !Newer(m[p], m[newPath]) then (m, Pass)
        else
          MovedCount(m, p, newPath);
          (Moved(m, p, newPath), Pass)
  }

  /** The corrected loop over `dir2`. It never creates a file: a pass
      moves one, or replaces one with another. */
  function RepatriateAllFixed(host: Host, index: map<Signature, FileRecord>, dir1: Path, m: Store, walk: seq<Path>)
    : (r: (Store, Outcome))
    ensures |r.0| <= |m|
    decreases |walk|
  {
    if walk == [] then (m, Pass)
    else
      var (next, o) := RepatriateStepFixed(host, index, dir1, m, walk[0]);
      if o.Fail? then (next, o) else RepatriateAllFixed(host, index, dir1, next, walk[1..])
  }

  /** `repatriate_files(dir1, dir2)` with the intended replacement test. */
  method RepatriateFilesFixed(fs: FileSystem, host: Host, dir1: Path, walk1: seq<Path>, walk2: seq<Path>)
    returns (o: Outcome)
    requires WalkIn(fs.files, walk1)
    modifies fs
    ensures (fs.files, o)
            == RepatriateAllFixed(host, CanonicalIndex(Records(host, old(fs.files), walk1)), dir1, old(fs.files), walk2)
  {
    var index := BuildCanonicalIndex(host, fs.files, walk1);
    o := Pass;
    for i := 0 to |walk2|
      invariant RepatriateAllFixed(host, index, dir1, fs.files, walk2[i..])
                == RepatriateAllFixed(host, index, dir1, old(fs.files), walk2)
    {
      var filePath := walk2[i];
      assert walk2[i..][1..] == walk2[i + 1..];
      if !fs.Exists(filePath) {
        o := Fail(FileNotFoundError(filePath));
        return;
      }
      var file := NewFile(host, fs.files, filePath);
      if file.signature !in index {
        var newPath := Join(dir1, file.name);
        if fs.Exists(newPath) {
          if Newer(fs.files[filePath], fs.files[newPath]) {
            var _ := fs.Move(filePath, newPath);
          }
        } else {
          var _ := fs.Move(filePath, newPath);
        }
      }
    }
  }

  /** The corrected pass raises only when the visited file has vanished;
      never KeyError. */
  lemma {:induction false} FixedRaisesOnlyFileNotFound(host: Host, index: map<Signature, FileRecord>, dir1: Path,
                                                       m: Store, walk: seq<Path>)
    ensures RepatriateAllFixed(host, index, dir1, m, walk).1.Fail? ==>
              exists i :: 0 <= i < |walk| &&
                RepatriateAllFixed(host, index, dir1, m, walk).1 == Fail(FileNotFoundError(walk[i]))
    decreases |walk|
  {
    if walk != [] {
      var (next, o) := RepatriateStepFixed(host, index, dir1, m, walk[0]);
      if !o.Fail? {
        FixedRaisesOnlyFileNotFound(host, index, dir1, next, walk[1..]);
        if RepatriateAllFixed(host, index, dir1, m, walk).1.Fail? {
          var i :| 0 <= i < |walk[1..]| &&
                   RepatriateAllFixed(host, index, dir1, next, walk[1..]).1 == Fail(FileNotFoundError(walk[1..][i]));
          assert walk[1..][i] == walk[i + 1];
        }
      }
    }
  }

  /** Over a walk that visits each file of the store once, the corrected
      loop completes: moving one file never removes another. */
  lemma {:induction false} FixedCompletes(host: Host, index: map<Signature, FileRecord>, dir1: Path,
                                          m: Store, walk: seq<Path>)
    requires forall i :: 0 <= i < |walk| ==> walk[i] in m
    requires Distinct(walk)
    ensures RepatriateAllFixed(host, index, dir1, m, walk).1 == Pass
    decreases |walk|
  {
    if walk != [] {
      var (next, o) := RepatriateStepFixed(host, index, dir1, m, walk[0]);
      forall i | 0 <= i < |walk[1..]|
        ensures walk[1..][i] in next
      {
        assert walk[1..][i] == walk[i + 1];
        assert walk[i + 1] != walk[0];
      }
      forall i, j | 0 <= i < j < |walk[1..]|
        ensures walk[1..][i] != walk[1..][j]
      {
        assert walk[1..][i] == walk[i + 1] && walk[1..][j] == walk[j + 1];
      }
      FixedCompletes(host, index, dir1, next, walk[1..]);
    }
  }

  /** A corrected pass replaces only the file at the incoming name's place
      in `dir1`, and only with a more recent one; every other file is left
      alone. */
  lemma StepFixedKeepsOrRenews(host: Host, index: map<Signature, FileRecord>, dir1: Path, m: Store, p: Path, q: Path)
    requires q in m && q != p
    ensures var next := RepatriateStepFixed(host, index, dir1, m, p).0;
            q in next && (next[q] == m[q] || (q == Join(dir1, Basename(p)) && Newer(next[q], m[q]) && p in m && next[q] == m[p]))
  {
  }

  /** As intended, repatriation may replace a file it does not visit, but
      only by a more recently modified one: no file outside the walk of
      `dir2` disappears or goes back in time. */
  lemma {:induction false} FixedNeverReplacesWithOlder(host: Host, index: map<Signature, FileRecord>, dir1: Path,
                                                       m: Store, walk: seq<Path>, q: Path)
    requires q in m && forall i :: 0 <= i < |walk| ==> walk[i] != q
    ensures q in RepatriateAllFixed(host, index, dir1, m, walk).0
    ensures RepatriateAllFixed(host, index, dir1, m, walk).0[q].mtime >= m[q].mtime
    decreases |walk|
  {
    if walk != [] {
      var (next, o) := RepatriateStepFixed(host, index, dir1, m, walk[0]);
      StepFixedKeepsOrRenews(host, index, dir1, m, walk[0], q);
      if !o.Fail? {
        forall i | 0 <= i < |walk[1..]|
          ensures walk[1..][i] != q
        {
          assert walk[1..][i] == walk[i + 1];
        }
        FixedNeverReplacesWithOlder(host, index, dir1, next, walk[1..], q);
      }
    }
  }

  /** Where the destination name is free, or the incoming file is newer,
      the corrected pass moves exactly as the written one would have had
      it not raised; an older incoming file stays in `dir2`. */
  lemma StepFixedCases(host: Host, index: map<Signature, FileRecord>, dir1: Path, m: Store, p: Path)
    requires p in m && host.md5(m[p].content) !in index
    ensures var dest := Join(dir1, Basename(p));
            var next := RepatriateStepFixed(host, index, dir1, m, p);
            next.1 == Pass
            && (dest !in m ==> next == RepatriateStep(host, index, dir1, m, p))
            && (dest in m && Newer(m[p], m[dest]) ==> next.0 == Moved(m, p, dest))
            && (dest in m && !Newer(m[p], m[dest]) ==> next.0 == m)
  {
  }

  // ---------------------------------------------------------------------
  // Running the script's three steps twice
  // ---------------------------------------------------------------------

  /** The corrected loop over a walk of two files. */
  lemma RepatriateTwoFixed(host: Host, index: map<Signature, FileRecord>, dir1: Path, m: Store, p: Path, q: Path)
    ensures var (next, o) := RepatriateStepFixed(host, index, dir1, m, p);
            RepatriateAllFixed(host, index, dir1, m, [p, q])
            == if o.Fail? then (next, o) else RepatriateStepFixed(host, index, dir1, next, q)
  {
    assert [p, q][0] == p && [p, q][1..] == [q];
    var next := RepatriateStepFixed(host, index, dir1, m, p).0;
    assert RepatriateAllFixed(host, index, dir1, next, [q]) == RepatriateStepFixed(host, index, dir1, next, q) by {
      assert [q][0] == q && [q][1..] == [];
    }
  }

  /** As corrected, of two new copies with one name, the first is moved
      and the second, not more recent, stays where it is. */
  lemma FixedSecondSameNameStays(host: Host, index: map<Signature, FileRecord>, dir1: Path, m: Store, p: Path, q: Path)
    requires p in m && q in m && p != q && Basename(p) == Basename(q)
    requires host.md5(m[p].content) !in index && host.md5(m[q].content) !in index
    requires Join(dir1, Basename(p)) !in m && m[q].mtime <= m[p].mtime
    ensures RepatriateAllFixed(host, index, dir1, m, [p, q]) == (Moved(m, p, Join(dir1, Basename(p))), Pass)
  {
    var dest := Join(dir1, Basename(p));
    var after := Moved(m, p, dest);
    assert RepatriateStepFixed(host, index, dir1, m, p) == (after, Pass);
    assert RepatriateStepFixed(host, index, dir1, after, q) == (after, Pass) by {
      assert q != dest && q in after && after[q] == m[q] && after[dest] == m[p];
    }
    RepatriateTwoFixed(host, index, dir1, m, p, q);
  }

  /** A comparison over a one-file walk of `dir2` reports that file when a
      walk of `dir1` meets a file with the same bytes. */
  lemma CopyReported(host: Host, fs: Store, walk1: seq<Path>, q: Path, j: nat)
    requires WalkIn(fs, walk1) && q in fs && j < |walk1| && fs[walk1[j]].content == fs[q].content
    ensures Select(Records(host, fs, [q]), Signatures(Records(host, fs, walk1))) == [RecordOf(host, fs, q)]
  {
    var recs := Records(host, fs, walk1);
    assert recs[j].signature == host.md5(fs[q].content);
    assert Records(host, fs, [q]) == [RecordOf(host, fs, q)];
    assert [RecordOf(host, fs, q)][..0] == [];
  }

  /** Two copies of a file whose signature `dir1` lacks are not reported. */
  lemma CopiesNotReported(host: Host, fs: Store, walk1: seq<Path>, p: Path, q: Path)
    requires WalkIn(fs, walk1) && p in fs && q in fs && fs[p].content == fs[q].content
    requires host.md5(fs[p].content) !in Signatures(Records(host, fs, walk1))
    ensures Select(Records(host, fs, [p, q]), Signatures(Records(host, fs, walk1))) == []
  {
    var walk2 := [p, q];
    assert forall i :: 0 <= i < |walk2| ==> walk2[i] == p || walk2[i] == q;
    SelectNone(Records(host, fs, walk2), Signatures(Records(host, fs, walk1)));
  }

  /** The first run of the script's three steps over two copies `p` and `q` of a file
      new to `dir1`, with the same name in two sub-directories of `dir2`,
      `q` not more recent than `p`. The comparison reports neither, so
      nothing is deleted. Repatriation moves `p` to `dest` in `dir1`,
      giving the store `after`, and leaves `q` behind: as written it raises
      KeyError on `q`, as corrected `q` is not more recent than the moved
      file. */
  lemma FirstRunLeavesCopy(host: Host, fs: Store, dir1: Path, walk1: seq<Path>, p: Path, q: Path,
                           dest: Path, after: Store)
    requires WalkIn(fs, walk1)
    requires p in fs && q in fs && p != q && Basename(p) == Basename(q)
    requires fs[p].content == fs[q].content && fs[q].mtime <= fs[p].mtime
    requires host.md5(fs[p].content) !in Signatures(Records(host, fs, walk1))
    requires dest == Join(dir1, Basename(p)) && dest !in fs && after == Moved(fs, p, dest)
    ensures Select(Records(host, fs, [p, q]), Signatures(Records(host, fs, walk1))) == []
    ensures var index := CanonicalIndex(Records(host, fs, walk1));
            RepatriateAll(host, index, dir1, fs, [p, q]) == (after, Fail(KeyError(host.md5(fs[q].content))))
            && RepatriateAllFixed(host, index, dir1, fs, [p, q]) == (after, Pass)
  {
    var recs1 := Records(host, fs, walk1);
    var index := CanonicalIndex(recs1);
    CopiesNotReported(host, fs, walk1, p, q);
    assert host.md5(fs[q].content) !in index by {
      CanonicalIndexLastWins(recs1);
    }
    SecondSameNameRaises(host, index, dir1, fs, p, q);
    FixedSecondSameNameStays(host, index, dir1, fs, p, q);
  }

  /** Re-running the script's three steps is not a no-op. After the first run above,
      `q` is still in `dir2` and `p` sits at `dest` in `dir1`; the second
      run's comparison, over any walk of `dir1` that meets `dest`, reports
      `q`, so the second run deletes it. */
  lemma SecondRunStillDeletes(host: Host, fs: Store, dir1: Path, p: Path, q: Path,
                              dest: Path, after: Store, walk1Again: seq<Path>)
    requires p in fs && q in fs && p != q && fs[p].content == fs[q].content
    requires dest == Join(dir1, Basename(p)) && dest !in fs && after == Moved(fs, p, dest)
    requires WalkIn(after, walk1Again) && dest in walk1Again
    ensures q in after
    ensures Select(Records(host, after, [q]), Signatures(Records(host, after, walk1Again))) == [RecordOf(host, after, q)]
  {
    var j :| 0 <= j < |walk1Again| && walk1Again[j] == dest;
    assert q != dest && after[q] == fs[q];
    CopyReported(host, after, walk1Again, q, j);
  }
}
