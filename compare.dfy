/** `compare_directories`: the files of a second tree whose signature also
    occurs in a first tree. */
module Compare {
  import opened Common
  import opened FileRecords
  import opened SignatureIndex

  /** The first loop of `compare_directories` and of `repatriate_files`:
      `files_dir1[file_obj.signature] = file_obj` for every file of the
      first tree. Its keys are the signatures found there, each mapped to
      the last file visited with it. */
  method BuildCanonicalIndex(host: Host, fs: Store, walk: seq<Path>) returns (index: map<Signature, FileRecord>)
    requires WalkIn(fs, walk)
    ensures index == CanonicalIndex(Records(host, fs, walk))
    ensures index.Keys == Signatures(Records(host, fs, walk))
    ensures forall s :: s in index ==>
              var k := LastWith(Records(host, fs, walk), s);
              0 <= k && index[s] == RecordOf(host, fs, walk[k])
  {
    ghost var recs := Records(host, fs, walk);
    index := map[];
    assert recs[..0] == [];
    for i := 0 to |walk|
      invariant index == CanonicalIndex(recs[..i])
    {
      var file := NewFile(host, fs, walk[i]);
      assert recs[..i + 1][..i] == recs[..i];
      index := index[file.signature := file];
    }
    assert recs[..|walk|] == recs;
    CanonicalIndexLastWins(recs);
  }

  /** `compare_directories(dir1, dir2)`: the files of the second walk, in
      visit order, whose signature is one of the first walk's. */
  method CompareDirectories(host: Host, fs: Store, walk1: seq<Path>, walk2: seq<Path>)
    returns (duplicates: seq<FileRecord>)
    requires WalkIn(fs, walk1) && WalkIn(fs, walk2)
    ensures duplicates == Select(Records(host, fs, walk2), Signatures(Records(host, fs, walk1)))
    ensures forall x :: x in duplicates <==>
              x in Records(host, fs, walk2) && x.signature in Signatures(Records(host, fs, walk1))
    ensures Subsequence(duplicates, Records(host, fs, walk2))
  {
    var index := BuildCanonicalIndex(host, fs, walk1);
    ghost var recs := Records(host, fs, walk2);
    ghost var keys := index.Keys;
    duplicates := [];
    assert recs[..0] == [];
    for i := 0 to |walk2|
      invariant duplicates == Select(recs[..i], keys)
    {
      var file := NewFile(host, fs, walk2[i]);
      SelectStep(recs, i, keys);
      if file.signature in index {
        duplicates := duplicates + [file];
      }
    }
    assert recs[..|walk2|] == recs;
    SelectMembers(recs, keys);
    SelectIsSubsequence(recs, keys);
  }

  /** A file of the second tree whose bytes equal those of some file of the
      first tree is reported, whatever its name or location. */
  lemma IdenticalContentReported(host: Host, fs: Store, walk1: seq<Path>, walk2: seq<Path>, i: nat, j: nat)
    requires WalkIn(fs, walk1) && WalkIn(fs, walk2)
    requires i < |walk2| && j < |walk1| && fs[walk2[i]].content == fs[walk1[j]].content
    ensures RecordOf(host, fs, walk2[i])
            in Select(Records(host, fs, walk2), Signatures(Records(host, fs, walk1)))
  {
    var recs1 := Records(host, fs, walk1);
    var recs2 := Records(host, fs, walk2);
    assert recs1[j].signature in Signatures(recs1);
    assert recs2[i] in recs2;
    SelectMembers(recs2, Signatures(recs1));
  }

  /** A file of the second tree whose signature no file of the first tree
      has is not reported. */
  lemma UnmatchedNotReported(host: Host, fs: Store, walk1: seq<Path>, walk2: seq<Path>, i: nat)
    requires WalkIn(fs, walk1) && WalkIn(fs, walk2) && i < |walk2|
    requires forall j :: 0 <= j < |walk1| ==> host.md5(fs[walk1[j]].content) != host.md5(fs[walk2[i]].content)
    ensures RecordOf(host, fs, walk2[i])
            !in Select(Records(host, fs, walk2), Signatures(Records(host, fs, walk1)))
  {
    var recs1 := Records(host, fs, walk1);
    SelectMembers(Records(host, fs, walk2), Signatures(recs1));
  }
}
