/** `analyze_directory`: the duplicate groups of one tree. */
module Duplicates {
  import opened Common
  import opened FileRecords
  import opened SignatureIndex

  /** The names bound at module level when `analyze_directory` first runs:
      the three imports, the top-level definitions, `__name__`, and the
      three variables the `__main__` block assigns before its first call. */
  const MODULE_GLOBALS: set<string> := {
    "__name__", "os", "hashlib", "time",
    "File", "analyze_directory", "print_duplicates", "sum_directory", "print_sums",
    "compare_directories", "print_comparison", "delete_duplicates", "repatriate_files",
    "directory", "rep1", "rep2"
  }

  /** The builtins the program refers to. This is not the whole of Python's
      builtins module; what matters here is that `defaultdict` is not one
      of them: it belongs to the `collections` module. */
  const BUILTINS: set<string> := {"len", "print", "open", "iter"}

  /** Looking up a free name at run time: a module-level name or a builtin,
      or NameError. */
  function LookupGlobal(name: string): Outcome
  {
    if name in MODULE_GLOBALS || name in BUILTINS then Pass else Fail(NameError(name))
  }

  /** The groups `analyze_directory` reports for `recs`: for every signature
      borne by more than one record, the records bearing it, in visit
      order. */
  function DuplicateGroups(recs: seq<FileRecord>): map<Signature, seq<FileRecord>>
  {
    map s | s in Signatures(recs) && |Select(recs, {s})| > 1 :: Select(recs, {s})
  }

  /** A signature borne by some selected record occurs in the records. */
  lemma GroupedSignature(recs: seq<FileRecord>, s: Signature)
    requires Select(recs, {s}) != []
    ensures s in Signatures(recs)
  {
    SelectMembers(recs, {s});
    var x := Select(recs, {s})[0];
    assert x in Select(recs, {s});
    var i :| 0 <= i < |recs| && recs[i] == x;
    assert recs[i].signature == s;
  }

  /** What the groups are: a signature has a group if and only if more
      than one record bears it, and its group is exactly the records
      bearing it, in visit order. */
  lemma DuplicateGroupsMeaning(recs: seq<FileRecord>)
    ensures forall s :: s in DuplicateGroups(recs) <==> |Select(recs, {s})| > 1
    ensures forall s :: s in DuplicateGroups(recs) ==> DuplicateGroups(recs)[s] == Select(recs, {s})
    ensures forall s, x :: s in DuplicateGroups(recs) && x in DuplicateGroups(recs)[s] ==> x.signature == s
  {
    forall s | |Select(recs, {s})| > 1 ensures s in Signatures(recs) {
      GroupedSignature(recs, s);
    }
    forall s | s in DuplicateGroups(recs) ensures forall x :: x in DuplicateGroups(recs)[s] ==> x.signature == s {
      SelectMembers(recs, {s});
    }
  }

  /** The buckets `files_dict` holds once every record is appended to the
      bucket of its signature, kept when they hold more than one record,
      are the groups. */
  lemma KeptBucketsAreGroups(recs: seq<FileRecord>, buckets: map<Signature, seq<FileRecord>>)
    requires forall s :: s in buckets <==> Select(recs, {s}) != []
    requires forall s :: s in buckets ==> buckets[s] == Select(recs, {s})
    ensures (map s | s in buckets && |buckets[s]| > 1 :: buckets[s]) == DuplicateGroups(recs)
  {
    DuplicateGroupsMeaning(recs);
  }

  /** `analyze_directory` with `files_dict = defaultdict(list)` in effect:
      append every visited record to the bucket of its signature, then keep
      the buckets holding more than one record. These are the groups of
      DuplicateGroups: a kept bucket is exactly the records with that
      signature, in visit order. */
  method AnalyzeDirectory(host: Host, fs: Store, walk: seq<Path>)
      returns (duplicates: map<Signature, seq<FileRecord>>)
    requires WalkIn(fs, walk)
    ensures duplicates == DuplicateGroups(Records(host, fs, walk))
    ensures forall s :: s in duplicates <==> |Select(Records(host, fs, walk), {s})| > 1
    ensures forall s :: s in duplicates ==> duplicates[s] == Select(Records(host, fs, walk), {s})
    ensures forall s, x :: s in duplicates && x in duplicates[s] ==> x.signature == s
  {
    ghost var recs := Records(host, fs, walk);
    var filesDict: map<Signature, seq<FileRecord>> := map[];
    for i := 0 to |walk|
      invariant forall s :: s in filesDict <==> Select(recs[..i], {s}) != []
      invariant forall s :: s in filesDict ==> filesDict[s] == Select(recs[..i], {s})
    {
      var file := NewFile(host, fs, walk[i]);
      var bucket := if file.signature in filesDict then filesDict[file.signature] else [];
      filesDict := filesDict[file.signature := bucket + [file]];
      forall s
        ensures s in filesDict <==> Select(recs[..i + 1], {s}) != []
        ensures s in filesDict ==> filesDict[s] == Select(recs[..i + 1], {s})
      {
        SelectStep(recs, i, {s});
      }
    }
    assert recs[..|walk|] == recs;
    duplicates := map s | s in filesDict && |filesDict[s]| > 1 :: filesDict[s];
    KeptBucketsAreGroups(recs, filesDict);
    DuplicateGroupsMeaning(recs);
  }

  /** `analyze_directory` as written: line 40 names `defaultdict`, which
      is neither imported, nor defined in the file, nor a builtin, so every
      call raises NameError before any file is visited. */
  method AnalyzeDirectoryAsWritten(host: Host, fs: Store, walk: seq<Path>)
      returns (r: Result<map<Signature, seq<FileRecord>>>)
    requires WalkIn(fs, walk)
    ensures r == Err(NameError("defaultdict"))
  {
    match LookupGlobal("defaultdict")
    case Fail(e) =>
      r := Err(e);
    case Pass =>
      assert false;
  }

  /** A tree with k > 1 files of signature `s` and no other duplicates:
      every other signature occurs at most once. Its duplicate groups are
      the single group of `s`, holding those k files. */
  lemma OneGroupOfIdenticalFiles(host: Host, fs: Store, walk: seq<Path>, s: Signature, k: nat)
    requires WalkIn(fs, walk)
    requires k > 1 && |Select(Records(host, fs, walk), {s})| == k
    requires forall t :: t != s ==> |Select(Records(host, fs, walk), {t})| <= 1
    ensures DuplicateGroups(Records(host, fs, walk)).Keys == {s}
    ensures DuplicateGroups(Records(host, fs, walk))[s] == Select(Records(host, fs, walk), {s})
    ensures |DuplicateGroups(Records(host, fs, walk))[s]| == k
  {
    var recs := Records(host, fs, walk);
    GroupedSignature(recs, s);
  }
}
