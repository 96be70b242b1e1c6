/** The file node of the projection (kdfsFile in internal/kdfs/kdfs.go) and the three
    requests it answers: attribute query (Getattr), Open and Read. */
module FileOps {
  import opened Vault

  /** An attribute file: the bytes copied from one attribute value when the tree was
      built, and the times of the entry that owns it. */
  datatype FileNode = FileNode(data: Bytes, times: Times)

  function Min(a: int, b: int): int {
    if a < b then a else b
  }

  // ---------------------------------------------------------------- Read

  /** What the Read handler as written produces: the bytes it hands back, or the
      runtime panic of its slice expression data[off:end]. */
  datatype ReadOutcome = ReadOk(bytes: Bytes) | SlicePanic

  /** Read as written: end := min(off + len(dest), len(data)); return data[off:end].
      Go's slice expression panics unless off <= end, and nothing guards it, so an
      offset past the end of the data panics instead of reading nothing. */
  function ReadAsWritten(f: FileNode, destLen: nat, off: nat): (r: ReadOutcome)
    ensures r.ReadOk? <==> off <= |f.data|
    ensures r.ReadOk? ==> |r.bytes| == Min(destLen, |f.data| - off)
    ensures r.ReadOk? ==> forall i :: 0 <= i < |r.bytes| ==> r.bytes[i] == f.data[off + i]
  {
    var end := Min(off + destLen, |f.data|);
    if off <= end then ReadOk(f.data[off..end]) else SlicePanic
  }

  /** Read with the guard the handler evidently intends: an offset at or past the end
      of the data reads zero bytes without error; otherwise the bytes from off on,
      truncated to the destination's length, never padded. */
  function Read(f: FileNode, destLen: nat, off: nat): (r: Bytes)
    ensures |r| == if off >= |f.data| then 0 else Min(destLen, |f.data| - off)
    ensures |r| <= destLen
    ensures forall i :: 0 <= i < |r| ==> r[i] == f.data[off + i]
  {
    if off >= |f.data| then [] else f.data[off..Min(off + destLen, |f.data|)]
  }

  /** The handler as written panics on an empty file read at offset 1. */
  lemma ReadPastEndPanics(t: Times)
    ensures ReadAsWritten(FileNode([], t), 1, 1) == SlicePanic
    ensures Read(FileNode([], t), 1, 1) == []
  {
  }

  /** Wherever the handler as written does not panic, the guarded Read agrees with it. */
  lemma ReadAgreesWhereDefined(f: FileNode, destLen: nat, off: nat)
    requires off <= |f.data|
    ensures ReadAsWritten(f, destLen, off) == ReadOk(Read(f, destLen, off))
  {
  }

  /** The bytes a reader collects by reading chunk bytes at a time from off until a
      read returns nothing, each read starting where the previous one stopped. */
  ghost function ReadFrom(f: FileNode, chunk: nat, off: nat): Bytes
    requires chunk > 0
    decreases |f.data| - off
  {
    if off >= |f.data| then []
    else
      var b := Read(f, chunk, off);
      b + ReadFrom(f, chunk, off + |b|)
  }

  /** Consecutive reads of any positive size reassemble exactly the file's data. */
  lemma {:induction false} ReadFromReassembles(f: FileNode, chunk: nat, off: nat)
    requires chunk > 0 && off <= |f.data|
    ensures ReadFrom(f, chunk, off) == f.data[off..]
    decreases |f.data| - off
  {
    if off < |f.data| {
      var b := Read(f, chunk, off);
      ReadFromReassembles(f, chunk, off + |b|);
      assert b == f.data[off..off + |b|];
      assert f.data[off..] == f.data[off..off + |b|] + f.data[off + |b|..];
    }
  }

  // ---------------------------------------------------------------- Getattr

  /** The fields of fuse.AttrOut that Getattr fills in. */
  datatype AttrOut = AttrOut(
    mode: bv32, nlink: nat,
    mtime: nat, atime: nat, ctime: nat,
    size: nat, blksize: nat, blocks: nat)

  /** 0o7777: every permission bit, including setuid, setgid and sticky. */
  const FileMode: bv32 := 0xFFF
  const BlockSize: nat := 512
  const TwoTo64: int := 0x1_0000_0000_0000_0000

  /** uint64(x) of an int64 x: two's complement reinterpretation. */
  function Uint64(x: int): (r: nat)
    ensures r < TwoTo64
    ensures 0 <= x < TwoTo64 / 2 ==> r == x
    ensures -TwoTo64 / 2 <= x < 0 ==> r == x + TwoTo64
  {
    x % TwoTo64
  }

  /** Synthetic metadata of an attribute file. */
  function Getattr(f: FileNode): (a: AttrOut)
    ensures a.mode == FileMode && a.nlink == 1
    ensures a.size == |f.data| && a.blksize == BlockSize
    ensures a.blocks * BlockSize >= a.size
    ensures a.size > 0 ==> (a.blocks - 1) * BlockSize < a.size
    ensures a.blocks == 0 <==> a.size == 0
    ensures a.mtime == Uint64(f.times.lastModification)
    ensures a.atime == Uint64(f.times.lastAccess)
    ensures a.ctime == Uint64(f.times.creation)
  {
    var size := |f.data|;
    AttrOut(FileMode, 1,
            Uint64(f.times.lastModification), Uint64(f.times.lastAccess), Uint64(f.times.creation),
            size, BlockSize, (size + BlockSize - 1) / BlockSize)
  }

  // ---------------------------------------------------------------- Open

  /** go-fuse's Linux values: FOPEN_CACHE_DIR, and O_ANYWRITE, the union of
      O_WRONLY, O_RDWR, O_APPEND, O_CREAT and O_TRUNC. */
  const FopenCacheDir: bv32 := 0x8
  const OAnyWrite: bv32 := 0x643

  /** Open hands back the file itself as the handle and a constant flag word that
      asks for directory caching and advertises every write access mode. */
  function Open(f: FileNode, flags: bv32): (r: (FileNode, bv32))
    ensures r.0 == f
    ensures r.1 & FopenCacheDir == FopenCacheDir && r.1 & OAnyWrite == OAnyWrite
    ensures r.1 & !(FopenCacheDir | OAnyWrite) == 0
  {
    (f, FopenCacheDir | OAnyWrite)
  }
}
