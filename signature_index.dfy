/** Records along a walk and the two ways the program indexes them by
    signature: every record per signature (an order-preserving selection)
    and the last record per signature (a dict overwritten key by key). */
module SignatureIndex {
  import opened Common
  import opened FileRecords

  /** The records `File(path)` builds along a walk, in visit order. The
      ensures only expose the elements to callers. */
  function Records(host: Host, fs: Store, walk: seq<Path>): (recs: seq<FileRecord>)
    requires WalkIn(fs, walk)
    ensures |recs| == |walk|
    ensures forall i :: 0 <= i < |walk| ==> recs[i] == RecordOf(host, fs, walk[i])
  {
    seq(|walk|, i requires 0 <= i < |walk| => RecordOf(host, fs, walk[i]))
  }

  /** Walking one part of a tree and then another yields the records of
      the first part followed by those of the second. */
  lemma RecordsAppend(host: Host, fs: Store, w1: seq<Path>, w2: seq<Path>)
    requires WalkIn(fs, w1) && WalkIn(fs, w2)
    ensures WalkIn(fs, w1 + w2)
    ensures Records(host, fs, w1 + w2) == Records(host, fs, w1) + Records(host, fs, w2)
  {
    var w := w1 + w2;
    assert WalkIn(fs, w) by {
      forall i | 0 <= i < |w| ensures w[i] in fs {
        if i < |w1| {
          assert w[i] == w1[i];
        } else {
          assert w[i] == w2[i - |w1|];
        }
      }
    }
    var r1 := Records(host, fs, w1);
    var r2 := Records(host, fs, w2);
    var whole := Records(host, fs, w);
    forall i | 0 <= i < |whole| ensures whole[i] == (r1 + r2)[i] {
      if i < |w1| {
        assert w[i] == w1[i] && (r1 + r2)[i] == r1[i];
      } else {
        assert w[i] == w2[i - |w1|] && (r1 + r2)[i] == r2[i - |w1|];
      }
    }
  }

  /** The records whose signature is in `keys`, in their original order:
      `files_dict[sig].append(file_obj)` for one bucket, and the filter of
      `compare_directories`. */
  function Select(recs: seq<FileRecord>, keys: set<Signature>): seq<FileRecord>
  {
    if recs == [] then []
    else
      var last := recs[|recs| - 1];
      Select(recs[..|recs| - 1], keys) + if last.signature in keys then [last] else []
  }

  /** `xs` is `ys` with some elements left out, the rest kept in order. */
  ghost predicate Subsequence(xs: seq<FileRecord>, ys: seq<FileRecord>)
    decreases |ys|
  {
    if xs == [] then true
    else if ys == [] then false
    else (xs[|xs| - 1] == ys[|ys| - 1] && Subsequence(xs[..|xs| - 1], ys[..|ys| - 1]))
         || Subsequence(xs, ys[..|ys| - 1])
  }

  /** Selecting from one more record of a prefix. */
  lemma SelectStep(recs: seq<FileRecord>, i: nat, keys: set<Signature>)
    requires i < |recs|
    ensures Select(recs[..i + 1], keys)
            == Select(recs[..i], keys) + if recs[i].signature in keys then [recs[i]] else []
  {
    assert recs[..i + 1][..i] == recs[..i];
  }

  /** Selection keeps exactly the records whose signature is a key. */
  lemma {:induction false} SelectMembers(recs: seq<FileRecord>, keys: set<Signature>)
    ensures forall x :: x in Select(recs, keys) <==> x in recs && x.signature in keys
  {
    if recs != [] {
      var init := recs[..|recs| - 1];
      SelectMembers(init, keys);
      assert recs == init + [recs[|recs| - 1]];
    }
  }

  /** Selection keeps the records in visit order. */
  lemma {:induction false} SelectIsSubsequence(recs: seq<FileRecord>, keys: set<Signature>)
    ensures Subsequence(Select(recs, keys), recs)
  {
    if recs != [] {
      var init := recs[..|recs| - 1];
      var last := recs[|recs| - 1];
      SelectIsSubsequence(init, keys);
      if last.signature in keys {
        var sel := Select(recs, keys);
        assert sel[..|sel| - 1] == Select(init, keys);
      } else {
        assert Select(recs, keys) == Select(init, keys);
        if Select(init, keys) != [] {
          assert Subsequence(Select(init, keys), init);
        }
      }
    }
  }

  /** When every record carries a key, selection keeps them all. */
  lemma {:induction false} SelectAll(recs: seq<FileRecord>, keys: set<Signature>)
    requires forall i :: 0 <= i < |recs| ==> recs[i].signature in keys
    ensures Select(recs, keys) == recs
  {
    if recs != [] {
      SelectAll(recs[..|recs| - 1], keys);
      assert recs == recs[..|recs| - 1] + [recs[|recs| - 1]];
    }
  }

  /** When no record carries a key, selection is empty. */
  lemma {:induction false} SelectNone(recs: seq<FileRecord>, keys: set<Signature>)
    requires forall i :: 0 <= i < |recs| ==> recs[i].signature !in keys
    ensures Select(recs, keys) == []
  {
    if recs != [] {
      SelectNone(recs[..|recs| - 1], keys);
    }
  }

  /** The set of signatures occurring in `recs`. */
  function Signatures(recs: seq<FileRecord>): set<Signature>
  {
    set i | 0 <= i < |recs| :: recs[i].signature
  }

  /** The position of the last record with signature `s`, or -1. */
  function LastWith(recs: seq<FileRecord>, s: Signature): (k: int)
    ensures -1 <= k < |recs|
    ensures k >= 0 ==> recs[k].signature == s
    ensures forall j :: k < j < |recs| ==> recs[j].signature != s
  {
    if recs == [] then -1
    else if recs[|recs| - 1].signature == s then |recs| - 1
    else LastWith(recs[..|recs| - 1], s)
  }

  /** The dict `files_dir1` after `files_dir1[sig] = file_obj` for every
      record in turn: a later record overwrites an earlier one. */
  function CanonicalIndex(recs: seq<FileRecord>): (index: map<Signature, FileRecord>)
    ensures forall s :: s in index ==> index[s].signature == s
  {
    if recs == [] then map[]
    else
      var last := recs[|recs| - 1];
      CanonicalIndex(recs[..|recs| - 1])[last.signature := last]
  }

  /** The keys of the canonical index are exactly the signatures of the
      records, and each key maps to the last record visited with it. */
  lemma {:induction false} CanonicalIndexLastWins(recs: seq<FileRecord>)
    ensures CanonicalIndex(recs).Keys == Signatures(recs)
    ensures forall s :: s in CanonicalIndex(recs) ==>
              LastWith(recs, s) >= 0 && CanonicalIndex(recs)[s] == recs[LastWith(recs, s)]
  {
    if recs != [] {
      var init := recs[..|recs| - 1];
      var last := recs[|recs| - 1];
      CanonicalIndexLastWins(init);
      assert Signatures(recs) == Signatures(init) + {last.signature} by {
        forall s | s in Signatures(recs) ensures s in Signatures(init) + {last.signature} {
          var i :| 0 <= i < |recs| && recs[i].signature == s;
          if i < |init| {
            assert init[i] == recs[i];
          }
        }
        forall s | s in Signatures(init) ensures s in Signatures(recs) {
          var i :| 0 <= i < |init| && init[i].signature == s;
          assert recs[i] == init[i];
        }
        assert recs[|recs| - 1].signature == last.signature;
      }
    }
  }
}
