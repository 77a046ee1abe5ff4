/** Shared vocabulary: bytes, paths, the abstract file store, the host
    services the program calls into, and the Python errors it can raise. */
module Common {

  /** One byte of file content. */
  newtype byte = x: int | 0 <= x < 256

  /** A file-system path; '/' is the separator. */
  type Path = string

  /** A content signature: the hex digest returned by `hexdigest()`. */
  type Signature = string

  /** What the store holds for one regular file: its bytes and its
      modification time in whole seconds (what `os.path.getmtime` reports). */
  datatype FileData = FileData(content: seq<byte>, mtime: int)

  /** The file system seen as a map from path to file. */
  type Store = map<Path, FileData>

  /** Foreign services, taken as parameters: the MD5 digest of a byte
      sequence (hashlib) and the `time.ctime` formatting of a time stamp. */
  datatype Host = Host(md5: seq<byte> -> Signature, ctime: int -> string)

  /** The Python exceptions the modelled code can raise. */
  datatype PyError =
    | NameError(name: string)
    | KeyError(key: Signature)
    | FileNotFoundError(path: Path)

  /** A value, or the exception that interrupted its computation. */
  datatype Result<T> = Ok(value: T) | Err(error: PyError)

  /** Normal completion, or the exception that stopped a statement sequence. */
  datatype Outcome = Pass | Fail(error: PyError)

  /** A directory walk: the file paths `os.walk` visits, in visit order.
      It only ever yields files that exist. */
  ghost predicate WalkIn(fs: Store, walk: seq<Path>)
  {
    forall i :: 0 <= i < |walk| ==> walk[i] in fs
  }

  /** Each path occurs at most once in the sequence. */
  ghost predicate Distinct(paths: seq<Path>)
  {
    forall i, j :: 0 <= i < j < |paths| ==> paths[i] != paths[j]
  }
}
