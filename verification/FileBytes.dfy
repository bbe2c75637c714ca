/** The byte contents of a file and how one chunk of a read or a write touches them. */
module FileBytes {
  import opened Sectors
  import opened DiskFormat
  import opened BlockTree
  import opened FileTree

  /** The file's contents: its data sectors in order, up to its length. */
  function Bytes(v: View, d: InodeDisk): (b: seq<Byte>)
    requires d.Fits()
    ensures |b| == d.length
  {
    SectorsForBounds(d.length);
    Raw(v, d, SectorsFor(d.length))[..d.length]
  }

  /** What the flat model of a file returns for a read. */
  function Slice(b: seq<Byte>, offset: nat, size: int): seq<Byte> {
    if size <= 0 || offset >= |b| then []
    else if offset + size < |b| then b[offset..offset + size]
    else b[offset..]
  }

  /** What the flat model of a file makes of a write: pad with zeros up to the write if need be, then overwrite. */
  function Written(b: seq<Byte>, offset: nat, buf: seq<Byte>): (r: seq<Byte>)
    ensures |r| == if |b| < offset + |buf| then offset + |buf| else |b|
  {
    var padded := if |b| < offset + |buf| then b + ZeroBytes(offset + |buf| - |b|) else b;
    Splice(padded, offset, buf)
  }

  /** The three ways index_to_sector finds a data sector. */
  lemma PointerCases(v: View, d: InodeDisk, n: nat, i: nat)
    requires FileOk(v, d, n) && i < n
    ensures i < 123 ==> FileLeaf(v, d, n, i) == d.direct[i]
    ensures 123 <= i < 251 ==> 0 < d.indirect < |v| && FileLeaf(v, d, n, i) == DecodeIndex(v[d.indirect])[i - 123]
    ensures 251 <= i ==> 0 < d.doubly < |v|
    ensures 251 <= i ==> var mid := DecodeIndex(v[d.doubly])[(i - 251) / 128];
                         0 < mid < |v| && FileLeaf(v, d, n, i) == DecodeIndex(v[mid])[(i - 251) % 128]
  {
    var r := Roots(d, n)[Pointer(i)];
    assert TreeOk(v, r);
    PointerCount(d, n, i);
    if i >= 123 {
      LeafStep(v, r, Within(i), r.count);
      var kid := Kids(v, r)[Slot(r.level, Within(i))];
      assert TreeOk(v, kid);
      if i >= 251 {
        LeafStep(v, kid, Rest(r.level, Within(i)), kid.count);
      }
    }
  }

  /** The index blocks between an inode and its data sector i are on the device. */
  predicate Reachable(v: View, d: InodeDisk, i: nat) {
    && |d.direct| == DIRECT_BLOCKS
    && (123 <= i < 251 ==> d.indirect < |v|)
    && (251 <= i < MAX_SECTORS ==> d.doubly < |v| && BlockAt(v, d.doubly)[(i - 251) / 128] < |v|)
  }

  /** The pointer stored for data sector i, whether the file has that many sectors or not. */
  function StoredPointer(v: View, d: InodeDisk, i: nat): SectorNo
    requires Reachable(v, d, i) && i < MAX_SECTORS
  {
    if i < 123 then d.direct[i]
    else if i < 251 then BlockAt(v, d.indirect)[i - 123]
    else BlockAt(v, BlockAt(v, d.doubly)[(i - 251) / 128])[(i - 251) % 128]
  }

  /** Within the file it leads to the file's data sector. */
  lemma StoredLeaf(v: View, d: InodeDisk, n: nat, i: nat)
    requires FileOk(v, d, n) && i < n
    ensures Reachable(v, d, i) && StoredPointer(v, d, i) == FileLeaf(v, d, n, i)
  {
    PointerCases(v, d, n, i);
    assert |d.direct| == DIRECT_BLOCKS;
    hide FileOk, FileLeaf, DecodeIndex;
  }

  /** A chunk inside one sector is the same bytes whether taken from the file or from the sector. */
  lemma ChunkRead(v: View, d: InodeDisk, n: nat, offset: nat, chunk: nat)
    requires FileOk(v, d, n)
    requires offset % 512 + chunk <= 512 && offset + chunk <= 512 * n && 0 < chunk
    ensures 0 <= FileLeaf(v, d, n, offset / 512) < |v|
    ensures Raw(v, d, n)[offset..offset + chunk]
            == v[FileLeaf(v, d, n, offset / 512)][offset % 512..offset % 512 + chunk]
  {
    FileLeafOk(v, d, n, offset / 512);
    hide FileOk, FileLeaf;
    var i := offset / 512;
    var s := v[FileLeaf(v, d, n, i)];
    var r := Raw(v, d, n);
    forall k | offset <= k < offset + chunk
      ensures r[k] == s[offset % 512 + (k - offset)]
    {
      assert k / 512 == i && k % 512 == offset % 512 + (k - offset);
    }
  }

  lemma BytesChunk(v: View, d: InodeDisk, offset: nat, chunk: nat)
    requires d.Fits() && FileOk(v, d, SectorsFor(d.length))
    requires offset % 512 + chunk <= 512 && offset + chunk <= d.length && 0 < chunk
    ensures 0 <= FileLeaf(v, d, SectorsFor(d.length), offset / 512) < |v|
    ensures Bytes(v, d)[offset..offset + chunk]
            == v[FileLeaf(v, d, SectorsFor(d.length), offset / 512)][offset % 512..offset % 512 + chunk]
  {
    hide FileOk, FileLeaf, Raw;
    SectorsForBounds(d.length);
    ChunkRead(v, d, SectorsFor(d.length), offset, chunk);
  }

  lemma SpliceInSector(r: seq<Byte>, base: nat, o: nat, chunk: seq<Byte>, before: Sector)
    requires o + |chunk| <= 512 && base + 512 <= |r|
    requires r[base..base + 512] == before
    ensures Splice(r, base, Splice(before, o, chunk)) == Splice(r, base + o, chunk)
  {
    assert forall k :: base <= k < base + 512 ==> r[k] == before[k - base];
  }

  lemma WholeSector(v: View, d: InodeDisk, n: nat, i: nat)
    requires FileOk(v, d, n) && i < n
    ensures 0 <= FileLeaf(v, d, n, i) < |v|
    ensures Raw(v, d, n)[512 * i..512 * i + 512] == v[FileLeaf(v, d, n, i)]
  {
    assert |d.direct| == DIRECT_BLOCKS && n <= MAX_SECTORS;
    hide FileOk, FileLeaf, Raw;
    assert 512 * i / 512 == i && 512 * i % 512 == 0;
    ChunkRead(v, d, n, 512 * i, 512);
    assert v[FileLeaf(v, d, n, i)][0..512] == v[FileLeaf(v, d, n, i)];
  }

  /** Rewriting one sector with a chunk spliced into it splices the chunk into the file. */
  lemma ChunkWrite(v: View, d: InodeDisk, n: nat, offset: nat, chunk: seq<Byte>, s: Sector)
    requires FileOk(v, d, n)
    requires offset % 512 + |chunk| <= 512 && offset + |chunk| <= 512 * n && 0 < |chunk|
    requires 0 <= FileLeaf(v, d, n, offset / 512) < |v|
    requires s == Splice(v[FileLeaf(v, d, n, offset / 512)], offset % 512, chunk)
    ensures SameFile(v, v[FileLeaf(v, d, n, offset / 512) := s], d, n)
    ensures Raw(v[FileLeaf(v, d, n, offset / 512) := s], d, n) == Splice(Raw(v, d, n), offset, chunk)
  {
    assert |d.direct| == DIRECT_BLOCKS && n <= MAX_SECTORS;
    hide FileOk, FileLeaf, SameFile, Raw, Splice;
    var i, o := offset / 512, offset % 512;
    assert offset == 512 * i + o;
    RawWrite(v, d, n, i, s);
    WholeSector(v, d, n, i);
    SpliceInSector(Raw(v, d, n), 512 * i, o, chunk, v[FileLeaf(v, d, n, i)]);
  }

  lemma SpliceAgain(b: seq<Byte>, offset: nat, first: seq<Byte>, second: seq<Byte>)
    requires offset + |first| + |second| <= |b|
    ensures Splice(Splice(b, offset, first), offset + |first|, second) == Splice(b, offset, first + second)
  {
  }

  /** From image v0 to image v the bytes `done` were written into the file at offset, and nothing else changed. */
  ghost predicate Overwritten(v0: View, v: View, d: InodeDisk, n: nat, offset: nat, done: seq<Byte>)
    requires |d.direct| == DIRECT_BLOCKS && n <= MAX_SECTORS && offset + |done| <= 512 * n
  {
    && SameFile(v0, v, d, n)
    && AgreeOff(v0, v, FileData(v0, d, n))
    && Raw(v, d, n) == Splice(Raw(v0, d, n), offset, done)
  }

  lemma OverwrittenNone(v: View, d: InodeDisk, n: nat, offset: nat)
    requires FileOk(v, d, n) && offset <= 512 * n
    ensures Overwritten(v, v, d, n, offset, [])
  {
  }

  lemma OverwrittenOk(v0: View, v: View, d: InodeDisk, n: nat, offset: nat, done: seq<Byte>)
    requires |d.direct| == DIRECT_BLOCKS && n <= MAX_SECTORS && offset + |done| <= 512 * n
    requires Overwritten(v0, v, d, n, offset, done)
    ensures FileOk(v, d, n) && |v| == |v0|
  {
  }

  lemma OverwrittenStep(v0: View, v: View, d: InodeDisk, n: nat, offset: nat, done: seq<Byte>, chunk: seq<Byte>,
                        s: Sector)
    requires |d.direct| == DIRECT_BLOCKS && n <= MAX_SECTORS
    requires offset + |done| + |chunk| <= 512 * n && 0 < |chunk|
    requires Overwritten(v0, v, d, n, offset, done)
    requires (offset + |done|) % 512 + |chunk| <= 512
    requires 0 <= FileLeaf(v, d, n, (offset + |done|) / 512) < |v|
    requires s == Splice(v[FileLeaf(v, d, n, (offset + |done|) / 512)], (offset + |done|) % 512, chunk)
    ensures Overwritten(v0, v[FileLeaf(v, d, n, (offset + |done|) / 512) := s], d, n, offset, done + chunk)
  {
    hide FileOk, FileLeaf, Raw, FileNodes, FileIndex, FileData, Splice;
    var i := (offset + |done|) / 512;
    ChunkWrite(v, d, n, offset + |done|, chunk, s);
    SpliceAgain(Raw(v0, d, n), offset, done, chunk);
    LeafInData(v, d, n, i);
  }

  /** Writing a whole file over replaces its contents. */
  lemma OverwrittenWhole(v0: View, v: View, d: InodeDisk, image: seq<Byte>)
    requires d.Fits() && |image| == d.length && image != []
    requires FileOk(v0, d, SectorsFor(d.length))
    requires Overwritten(v0, v, d, SectorsFor(d.length), 0, image)
    ensures Bytes(v, d) == image
    ensures SameFile(v0, v, d, SectorsFor(d.length))
    ensures AgreeOff(v0, v, FileNodes(v0, d, SectorsFor(d.length)))
  {
    SectorsForBounds(d.length);
    DataInNodes(v0, d, SectorsFor(d.length));
  }

  lemma DataInNodes(v: View, d: InodeDisk, n: nat)
    requires FileOk(v, d, n)
    ensures FileData(v, d, n) <= FileNodes(v, d, n) - FileIndex(v, d, n)
  {
    assert |d.direct| == DIRECT_BLOCKS && n <= MAX_SECTORS;
    hide FileOk, FileLeaf, FileNodes, FileIndex;
    forall x | x in FileData(v, d, n)
      ensures x in FileNodes(v, d, n) - FileIndex(v, d, n)
    {
      var i :| 0 <= i < n && x == FileLeaf(v, d, n, i);
      FileLeafOk(v, d, n, i);
    }
  }

  lemma LeafInData(v: View, d: InodeDisk, n: nat, i: nat)
    requires |d.direct| == DIRECT_BLOCKS && i < n <= MAX_SECTORS
    ensures FileLeaf(v, d, n, i) as int in FileData(v, d, n)
  {
  }

  lemma OverwrittenApart(v0: View, v: View, d: InodeDisk, n: nat, offset: nat, buf: seq<Byte>)
    requires FileOk(v0, d, n) && offset + |buf| <= 512 * n
    requires Overwritten(v0, v, d, n, offset, buf)
    ensures AgreeOff(v0, v, FileNodes(v0, d, n))
  {
    DataInNodes(v0, d, n);
    hide FileNodes, FileIndex, FileData;
  }

  lemma WrittenIs(b: seq<Byte>, offset: nat, buf: seq<Byte>)
    ensures Written(b, offset, buf) ==
            if |b| < offset + |buf| then Splice(b + ZeroBytes(offset + |buf| - |b|), offset, buf)
            else Splice(b, offset, buf)
  {
  }

  lemma NothingWritten(b: seq<Byte>, offset: nat)
    ensures Written(b, offset, []) == if |b| < offset then b + ZeroBytes(offset - |b|) else b
  {
  }

  lemma WholeSlice(b: seq<Byte>)
    ensures Slice(b, 0, |b|) == b
  {
  }

  /** A loop that has copied done, and stops because it has all it wants or the file has no more, has the slice. */
  lemma SliceDone(b: seq<Byte>, offset: nat, size: int, done: seq<Byte>)
    requires done == [] || (offset + |done| <= |b| && |done| <= size && done == b[offset..offset + |done|])
    requires size - |done| <= 0 || |b| <= offset + |done|
    ensures done == Slice(b, offset, size)
  {
  }

  lemma SliceMore(b: seq<Byte>, offset: nat, done: seq<Byte>, chunk: seq<Byte>)
    requires offset + |done| + |chunk| <= |b|
    requires done == [] || done == b[offset..offset + |done|]
    requires chunk == b[offset + |done|..offset + |done| + |chunk|]
    ensures done + chunk == b[offset..offset + |done| + |chunk|]
  {
  }
}
