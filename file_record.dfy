/** The `File` record: what the program knows about one file, and how it
    computes the signature and the prefix fingerprint from the content. */
module FileRecords {
  import opened Common
  import opened Paths
  import opened Hex

  /** One instance of the source's `File` class. Its fields are assigned
      once, in the constructor, and never changed afterwards. */
  datatype FileRecord = FileRecord(
    path: Path,
    name: string,
    size: nat,
    date: string,
    signature: Signature,
    firstBytes: string)

  /** The read size of the hashing loop (`chunk_size=4096`). */
  const CHUNK_SIZE: nat := 4096

  /** How many leading bytes the fingerprint covers (`num_bytes=5`). */
  const PREFIX_LENGTH: nat := 5

  function Min(a: nat, b: nat): nat
  {
    if a <= b then a else b
  }

  /** `f.read(n)` on a file whose position is `pos`: the bytes that follow,
      at most `n` of them and fewer only at end of file. A positive read
      comes back empty exactly at end of file, which is what stops the
      hashing loop. */
  function ReadAt(content: seq<byte>, pos: nat, n: nat): (chunk: seq<byte>)
    requires pos <= |content|
    ensures |chunk| <= n && pos + |chunk| <= |content|
    ensures chunk == content[pos..pos + |chunk|]
    ensures |chunk| < n ==> pos + |chunk| == |content|
    ensures n > 0 ==> (chunk == [] <==> pos == |content|)
  {
    content[pos..pos + Min(n, |content| - pos)]
  }

  /** The bytes of a sequence of chunks, in order. */
  function Concat(chunks: seq<seq<byte>>): seq<byte>
  {
    if chunks == [] then [] else Concat(chunks[..|chunks| - 1]) + chunks[|chunks| - 1]
  }

  /** `calculate_md5`: read the file in chunks of at most CHUNK_SIZE bytes
      until a read comes back empty, feeding each chunk to the hash. The
      state of the MD5 object is the sequence of bytes fed to it so far
      (MD5 is a function of the concatenation of its `update` calls), so
      the digest is that of the whole content, and of nothing else. */
  method CalculateMd5(host: Host, content: seq<byte>) returns (signature: Signature, ghost chunks: seq<seq<byte>>)
    ensures signature == host.md5(content)
    ensures Concat(chunks) == content
    ensures forall i :: 0 <= i < |chunks| ==> 0 < |chunks[i]| <= CHUNK_SIZE
  {
    var fed: seq<byte> := [];
    var pos: nat := 0;
    chunks := [];
    var chunk := ReadAt(content, pos, CHUNK_SIZE);
    while chunk != []
      invariant pos <= |content|
      invariant chunk == ReadAt(content, pos, CHUNK_SIZE)
      invariant fed == content[..pos] && Concat(chunks) == fed
      invariant forall i :: 0 <= i < |chunks| ==> 0 < |chunks[i]| <= CHUNK_SIZE
      decreases |content| - pos
    {
      ghost var previous := chunks;
      fed := fed + chunk;
      chunks := chunks + [chunk];
      assert chunks[..|chunks| - 1] == previous;
      pos := pos + |chunk|;
      chunk := ReadAt(content, pos, CHUNK_SIZE);
    }
    assert fed == content;
    signature := host.md5(fed);
  }

  /** `get_first_bytes`: the first PREFIX_LENGTH bytes (fewer for a short
      file) as lower-case two-digit hex, which reads back as those bytes. */
  function FirstBytes(content: seq<byte>): (hex: string)
    ensures |hex| == 2 * Min(PREFIX_LENGTH, |content|)
    ensures forall i :: 0 <= i < |hex| ==> hex[i] in HEX_DIGITS
    ensures Unhex(hex) == content[..Min(PREFIX_LENGTH, |content|)]
  {
    var prefix := content[..Min(PREFIX_LENGTH, |content|)];
    UnhexHexString(prefix);
    HexString(prefix)
  }

  /** The record `File(path)` builds for a file of the store. */
  function RecordOf(host: Host, fs: Store, path: Path): FileRecord
    requires path in fs
  {
    var data := fs[path];
    FileRecord(path, Basename(path), |data.content|, host.ctime(data.mtime),
               host.md5(data.content), FirstBytes(data.content))
  }

  /** `File.__init__`: stat, hash and fingerprint the file at `path`. */
  method NewFile(host: Host, fs: Store, path: Path) returns (file: FileRecord)
    requires path in fs
    ensures file == RecordOf(host, fs, path)
    ensures file.path == path && '/' !in file.name
    ensures file.size == |fs[path].content| && file.signature == host.md5(fs[path].content)
  {
    var data := fs[path];
    var signature, _ := CalculateMd5(host, data.content);
    file := FileRecord(path, Basename(path), |data.content|, host.ctime(data.mtime),
                       signature, FirstBytes(data.content));
  }

  /** `File.__eq__`: same signature and same size. */
  predicate SameFile(a: FileRecord, b: FileRecord)
  {
    a.signature == b.signature && a.size == b.size
  }

  /** Records of two files with identical bytes are equal under `__eq__`,
      whatever their paths, names and dates. */
  lemma IdenticalContentSameFile(host: Host, fs: Store, p: Path, q: Path)
    requires p in fs && q in fs && fs[p].content == fs[q].content
    ensures SameFile(RecordOf(host, fs, p), RecordOf(host, fs, q))
    ensures RecordOf(host, fs, p).firstBytes == RecordOf(host, fs, q).firstBytes
  {
  }
}
