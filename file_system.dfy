/** The mutable file system the program deletes from and moves files in:
    `os.remove`, `os.rename`, `os.replace` and `os.path.exists` over a
    store of regular files. */
module FileSystems {
  import opened Common

  /** The store after moving the file at `src` to `dst`, replacing whatever
      was at `dst`. */
  function Moved(m: Store, src: Path, dst: Path): (r: Store)
    requires src in m
    ensures r.Keys == m.Keys - {src} + {dst}
    ensures r[dst] == m[src]
    ensures forall p :: p in r && p != dst ==> r[p] == m[p]
  {
    (m - {src})[dst := m[src]]
  }

  /** A move keeps the number of files, except when it replaces a file
      other than the moved one: then there is one fewer. */
  lemma MovedCount(m: Store, src: Path, dst: Path)
    requires src in m
    ensures |Moved(m, src, dst)| == if dst in m && dst != src then |m| - 1 else |m|
  {
    var rest := m - {src};
    assert rest.Keys == m.Keys - {src};
    assert |rest| == |m| - 1;
    assert Moved(m, src, dst) == rest[dst := m[src]];
  }

  /** Moving a file onto its own path changes nothing. */
  lemma MovedSelf(m: Store, p: Path)
    requires p in m
    ensures Moved(m, p, p) == m
  {
  }

  /** A move to a free path is undone by the move back. */
  lemma MovedBack(m: Store, src: Path, dst: Path)
    requires src in m && dst !in m
    ensures Moved(Moved(m, src, dst), dst, src) == m
  {
    var there := Moved(m, src, dst);
    var back := Moved(there, dst, src);
    assert back.Keys == m.Keys;
    forall p | p in m
      ensures back[p] == m[p]
    {
      if p != src {
        assert p != dst && there[p] == m[p];
      }
    }
  }

  /** The directory tree, as the files it holds. */
  class FileSystem {
    var files: Store

    constructor(initial: Store)
      ensures files == initial
    {
      files := initial;
    }

    /** `os.path.exists(p)`, for the regular files the store holds. */
    predicate Exists(p: Path)
      reads this
    {
      p in files
    }

    /** `os.remove(p)`: removes the file, or raises FileNotFoundError and
        leaves the store alone when there is none. */
    method Remove(p: Path) returns (o: Outcome)
      modifies this
      ensures p in old(files) ==> o == Pass && files == old(files) - {p}
      ensures p !in old(files) ==> o == Fail(FileNotFoundError(p)) && files == old(files)
    {
      if p in files {
        files := files - {p};
        o := Pass;
      } else {
        o := Fail(FileNotFoundError(p));
      }
    }

    /** `os.rename(src, dst)` and `os.replace(src, dst)`: both move the
        file and, on POSIX, silently replace an existing `dst`; a missing
        `src` raises FileNotFoundError. */
    method Move(src: Path, dst: Path) returns (o: Outcome)
      modifies this
      ensures src in old(files) ==> o == Pass && files == Moved(old(files), src, dst)
      ensures src !in old(files) ==> o == Fail(FileNotFoundError(src)) && files == old(files)
    {
      if src in files {
        files := Moved(files, src, dst);
        o := Pass;
      } else {
        o := Fail(FileNotFoundError(src));
      }
    }
  }
}
