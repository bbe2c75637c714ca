/** Inodes over the buffer cache and the free map (a3/fs/inode.c, a3/fs/free-map.c). */
module FileSystems {
  import opened Sectors
  import opened DiskFormat
  import opened BlockTree
  import opened FileTree
  import opened FileBytes
  import opened Accounting
  import opened Gaps
  import opened BitWords
  import opened Bitmaps
  import opened Reserving
  import opened Releasing
  import opened Volumes
  import opened VolumeSteps
  import opened Census
  import opened BufferCaches

  /** (block_sector_t)-1 */
  const NO_SECTOR: SectorNo := 0xFFFF_FFFF

  /** struct inode, for one opener */
  class Inode {
    const sector: SectorNo
    var removed: bool
    var denyWriteCnt: nat
    var data: InodeDisk

    constructor (sector: SectorNo, data: InodeDisk)
      ensures this.sector == sector && this.data == data && !removed && denyWriteCnt == 0
    {
      this.sector := sector;
      this.data := data;
      removed := false;
      denyWriteCnt := 0;
    }
  }

  function Min(a: nat, b: nat): nat {
    if a < b then a else b
  }

  /** x was the least free sector, and is now marked. */
  ghost predicate Taken(bits: seq<bool>, x: int, bits2: seq<bool>) {
    && 0 < x < |bits|
    && !bits[x]
    && (forall y :: 0 <= y < x ==> bits[y])
    && bits2 == bits[x := true]
    && Used(bits2) == Used(bits) + {x}
    && Free(bits2) == Free(bits) - 1
  }

  /** A free sector taken and zeroed is an index block that has been started. */
  lemma TakenStarted(v0: View, bits0: seq<bool>, level: nat, v1: View, bits: seq<bool>, p: SectorNo, md: set<int>)
    requires Taken(bits0, p, bits) && |bits0| <= |v0| && AgreeOff(v0, v1, md)
    ensures p < |v1|
    ensures Started(v0, bits0, Root(0, level, 0), v1[p := Zeros()], bits, p, md)
  {
    assert p !in Used(bits0);
    hide Used, Free;
  }

  /** An open inode that gained pointers only still reads what the one on the device says. */
  lemma BytesThrough(v: View, w: View, s: int, d: InodeDisk, data: InodeDisk)
    requires FileOk(v, d, SectorsFor(d.length)) && d.Fits() && data.length == d.length && PointersKept(d, data)
    requires InodeAt(w, s) == d
    ensures data.Fits() && SectorsFor(data.length) <= MAX_SECTORS && Bytes(w, data) == Contents(w, s)
  {
    hide FileOk, Raw, InodeAt;
    RawThrough(v, w, d, data, SectorsFor(d.length));
  }

  lemma TakenFree(bits: seq<bool>, x: int, bits2: seq<bool>)
    requires Taken(bits, x, bits2)
    ensures x !in Used(bits) && x in Used(bits2) && 0 < x < |bits| == |bits2|
    ensures !bits[x] && bits2 == bits[x := true]
  {
  }

  lemma TakenCount(bits: seq<bool>, x: int, bits2: seq<bool>)
    requires Taken(bits, x, bits2)
    ensures Used(bits2) == Used(bits) + {x} && Free(bits2) == Free(bits) - 1
  {
  }

  lemma StartedFree(v0: View, bits0: seq<bool>, r: Root, v: View, bits: seq<bool>, p: SectorNo, md: set<int>)
    requires Started(v0, bits0, r, v, bits, p, md)
    ensures Free(bits) == Free(bits0) - if r.count > 0 then 0 else 1
  {
  }

  lemma TakenFirst(bits: seq<bool>, x: nat)
    requires |bits| > 0 && bits[0]
    requires Group(bits, x, 1, false)
    requires forall i: nat :: 0 <= i && i < x ==> !Group(bits, i, 1, false)
    ensures Taken(bits, x, bits[x := true])
  {
    MarkFirst(bits, x);
    assert !bits[x];
    forall y | 0 <= y < x
      ensures bits[y]
    {
      assert !Group(bits, y, 1, false);
    }
  }

  /** These are the sectors of the first data blocks of the file, in order. */
  predicate Listed(v: View, d: InodeDisk, n: nat, sectors: seq<SectorNo>) {
    && |d.direct| == DIRECT_BLOCKS && |sectors| <= n <= MAX_SECTORS
    && forall i :: 0 <= i < |sectors| ==> sectors[i] == FileLeaf(v, d, n, i)
  }

  lemma ListedNext(v: View, d: InodeDisk, n: nat, sectors: seq<SectorNo>, x: SectorNo)
    requires Listed(v, d, n, sectors) && |sectors| < n && x == FileLeaf(v, d, n, |sectors|)
    ensures Listed(v, d, n, sectors + [x])
  {
    hide FileLeaf;
  }

  lemma DirectNext(v: View, d: InodeDisk, n: nat, sectors: seq<SectorNo>)
    requires FileOk(v, d, n) && Listed(v, d, n, sectors) && |sectors| < n && |sectors| < DIRECT_BLOCKS
    ensures |d.direct| == DIRECT_BLOCKS && Listed(v, d, n, sectors + [d.direct[|sectors|]])
  {
    PointerCases(v, d, n, |sectors|);
    hide FileOk, FileLeaf;
  }

  lemma ListedAll(v: View, d: InodeDisk, n: nat, sectors: seq<SectorNo>)
    requires FileOk(v, d, n) && Listed(v, d, n, sectors)
    ensures |d.direct| == DIRECT_BLOCKS && |sectors| <= n <= MAX_SECTORS
    ensures forall i :: 0 <= i < |sectors| ==> sectors[i] == FileLeaf(v, d, n, i)
    ensures forall i, j :: 0 <= i < j < |sectors| ==> sectors[i] != sectors[j]
  {
    hide FileOk, FileLeaf;
    forall i, j | 0 <= i < j < |sectors|
      ensures sectors[i] != sectors[j]
    {
      FileLeavesApart(v, d, n, i, j);
    }
  }

  /** The one write that damages a file: no bytes, at offset 0, to a file that is not empty. */
  predicate Truncates(length: int, size: nat, offset: nat) {
    size == 0 && offset == 0 && length > 0
  }

  /** What a write leaves alone: the kind of file and the magic number. */
  function Header(d: InodeDisk): (bool, SectorNo) {
    (d.isDir, d.magic)
  }

  /** There are enough free sectors for a file of this length to reach `end` bytes, index blocks included. */
  predicate Enough(bits: seq<bool>, length: int, end: nat) {
    end <= length || Free(bits) + FileSize(SectorsFor(length)) >= FileSize(SectorsFor(end))
  }

  /** Growing from this length to `end` bytes is refused an index block, not a data sector: the growth reaches some
      number of data sectors, and one more would cost at least two sectors more than there are. */
  ghost predicate Wipes(bits: seq<bool>, length: int, end: nat) {
    FileGap(Free(bits) + FileSize(SectorsFor(length)), SectorsFor(length), SectorsFor(end))
  }

  /** A full device refuses a new file a data sector first. */
  lemma FullRefused(bits: seq<bool>, length: nat)
    ensures Free(bits) == 0 ==> !Wipes(bits, 0, length)
  {
    hide Free;
  }

  lemma NoSectors()
    ensures SectorsFor(0) == 0 && FileSize(0) == 0
  {
  }

  /** A case in which it happens: one byte more for a file that fills its direct blocks, on a full device. */
  lemma WipeExample(bits: seq<bool>)
    requires Free(bits) == 0
    ensures Wipes(bits, 123 * 512, 123 * 512 + 1)
  {
    hide Free;
    assert FileSize(123) == 123 && FileSize(124) == 125;
  }

  /** What is left of the free-map file then. */
  lemma WipedMap(v: View)
    ensures First(v) == Zeros() ==> InodeAt(v, FREE_MAP).length == 0 && InodeAt(v, FREE_MAP).magic != INODE_MAGIC
  {
    ZerosDecode();
  }

  class FileSystem {
    const cache: BufferCache
    const freeMap: Bitmap
    /** free_map_file, null until the free map has a file. */
    var freeMapFile: Inode?
    /** The inode sectors of all files, the free-map file's among them. */
    ghost var files: set<int>
    /** The objects that operations change. */
    ghost function Footprint(): set<object> {
      {this, cache, cache.slots, cache.disk, freeMap, freeMap.bits}
    }

    /** All the sectors of the free-map file but the one its inode is in. */
    ghost var mapNodes: set<int>

    /** The cache and the free map are in order; the last sector of the device has no bit, sector 0 is in use. */
    ghost predicate Machine()
      reads cache, cache.slots, cache.disk, freeMap, freeMap.bits
    {
      && cache.Valid()
      && freeMap.Valid()
      && freeMap.bits as object != cache.slots && freeMap.bits as object != cache.disk
      && |cache.view| == freeMap.bitCnt + 1
      && 2 <= freeMap.bitCnt
      && freeMap.model[0]
    }

    /** The open free-map file is as long as the bitmap, lies on marked sectors and may be written. */
    ghost predicate MapFile()
      reads `freeMapFile, `mapNodes, cache, freeMap, freeMapFile
    {
      if freeMapFile == null then
        mapNodes == {}
      else
        var d := freeMapFile.data;
        var n := SectorsFor(d.length);
        && d.Fits()
        && d.length == 8 * ElemCnt(freeMap.bitCnt)
        && freeMapFile.denyWriteCnt == 0
        && FileOk(cache.view, d, n)
        && mapNodes == FileNodes(cache.view, d, n) <= Used(freeMap.model)
    }

    /** Decoding the free-map file, if open, gives the bitmap. */
    ghost predicate Persisted()
      reads `freeMapFile, `mapNodes, cache, freeMap, freeMapFile
    {
      freeMapFile != null ==>
        && freeMapFile.data.Fits() && freeMapFile.data.length == 8 * ElemCnt(freeMap.bitCnt)
        && ImageModel(Bytes(cache.view, freeMapFile.data), freeMap.bitCnt) == freeMap.model
    }

    /** The state between any two calls of this layer. */
    ghost predicate Ready()
      reads `freeMapFile, `mapNodes, cache, cache.slots, cache.disk, freeMap, freeMap.bits, freeMapFile
    {
      Machine() && MapFile() && Persisted()
    }

    /** The state between any two calls from outside, but for sectors that are allocated and not yet part of a file. */
    ghost predicate Holds(loose: set<int>)
      reads this, cache, cache.slots, cache.disk, freeMap, freeMap.bits, freeMapFile
    {
      && Ready()
      && freeMapFile != null && freeMapFile.sector == FREE_MAP
      && FREE_MAP in files
      && freeMapFile.data == InodeAt(cache.view, FREE_MAP)
      && VolumeOk(cache.view, freeMap.model, files, loose)
    }

    ghost predicate Valid()
      reads this, cache, cache.slots, cache.disk, freeMap, freeMap.bits, freeMapFile
    {
      Holds({})
    }

    /** inode is the in-memory copy of the ordinary file at its sector. */
    ghost predicate IsOpen(inode: Inode)
      reads this, cache, inode
    {
      && inode.sector in files
      && inode.sector != FREE_MAP
      && inode != freeMapFile
      && inode.data == InodeAt(cache.view, inode.sector)
    }

    /** The index blocks of an open file. */
    ghost function IndexBlocks(inode: Inode): set<int>
      reads this, cache, inode
      requires IsOpen(inode)
    {
      FileIndex(cache.view, inode.data, SectorsFor(inode.data.length))
    }

    lemma ReadyFacts()
      requires Ready()
      ensures |cache.view| == |freeMap.model| + 1 == freeMap.bitCnt + 1 <= NO_SECTOR
      ensures mapNodes <= Used(freeMap.model)
      ensures 0 !in mapNodes && 0 in Used(freeMap.model)
    {
      if freeMapFile != null {
        var d := freeMapFile.data;
        if 0 in mapNodes {
          FileNodesOnDevice(cache.view, d, SectorsFor(d.length), 0);
        }
      }
    }

    /** filesys_init up to the point where the free map is opened: the cache is empty, sectors 0 and 1 are marked. */
    constructor (device: array<Sector>)
      requires 3 <= device.Length < 0x1_0000_0000
      ensures Machine()
      ensures cache.disk == device && fresh(cache) && fresh(cache.slots) && fresh(freeMap) && fresh(freeMap.bits)
      ensures cache.view == device[..]
      ensures Used(freeMap.model) == {0, 1}
      ensures freeMapFile == null && mapNodes == {} && files == {}
    {
      cache := new BufferCache(device);
      freeMap := new Bitmap(device.Length - 1);
      freeMapFile := null;
      mapNodes := {};
      files := {};
      new;
      freeMap.Mark(0);
      freeMap.Mark(1);
    }

    // ----- reading and writing within the length of a file

    /** index_to_sector: the pointer stored for that data sector, by division and remainder. */
    method IndexToSector(d: InodeDisk, index: nat) returns (ret: SectorNo)
      requires cache.Valid() && Reachable(cache.view, d, index)
      modifies cache`clock, cache`home, cache.slots, cache.disk
      ensures cache.Valid()
      ensures ret == if index < MAX_SECTORS then StoredPointer(cache.view, d, index) else NO_SECTOR
    {
      hide DecodeIndex;
      var indexBase, indexLimit := 0, DIRECT_BLOCKS;
      if index < indexLimit {
        return d.direct[index];
      }
      indexBase := indexLimit;
      indexLimit := indexLimit + PTRS;
      if index < indexLimit {
        var block := cache.Read(d.indirect);
        return DecodeIndex(block)[index - indexBase];
      }
      indexBase := indexLimit;
      indexLimit := indexLimit + PTRS * PTRS;
      if index < indexLimit {
        var first := (index - indexBase) / PTRS;
        var second := (index - indexBase) % PTRS;
        var block := cache.Read(d.doubly);
        block := cache.Read(DecodeIndex(block)[first]);
        return DecodeIndex(block)[second];
      }
      return NO_SECTOR;
    }

    /** byte_to_sector */
    method ByteToSector(d: InodeDisk, pos: int) returns (ret: SectorNo)
      requires cache.Valid() && d.Fits() && FileOk(cache.view, d, SectorsFor(d.length))
      modifies cache`clock, cache`home, cache.slots, cache.disk
      ensures cache.Valid()
      ensures 0 <= pos < d.length ==> ret == FileLeaf(cache.view, d, SectorsFor(d.length), pos / 512)
      ensures !(0 <= pos < d.length) ==> ret == NO_SECTOR
    {
      if 0 <= pos && pos < d.length {
        var index := pos / SECTOR_SIZE;
        SectorsForBounds(d.length);
        StoredLeaf(cache.view, d, SectorsFor(d.length), index);
        ret := IndexToSector(d, index);
      } else {
        ret := NO_SECTOR;
      }
    }

    /** The test at the top of inode_write_at: does the file hold no byte at pos? */
    method BeyondEnd(d: InodeDisk, pos: int) returns (beyond: bool)
      requires cache.Valid() && d.Fits() && FileOk(cache.view, d, SectorsFor(d.length))
      requires |cache.view| <= NO_SECTOR
      modifies cache`clock, cache`home, cache.slots, cache.disk
      ensures cache.Valid()
      ensures beyond <==> !(0 <= pos < d.length)
    {
      if 0 <= pos < d.length {
        SectorsForBounds(d.length);
        FileLeafOk(cache.view, d, SectorsFor(d.length), pos / 512);
      }
      hide FileOk, FileLeaf, SectorsFor;
      var sectorIdx := ByteToSector(d, pos);
      beyond := sectorIdx == NO_SECTOR;
    }

    /** The body of the loop of inode_read_at: a whole sector is read in place, part of one through a bounce buffer. */
    method CopyOut(sectorIdx: SectorNo, sectorOfs: nat, chunkSize: nat) returns (chunk: seq<Byte>)
      requires cache.Valid() && sectorIdx < |cache.view|
      requires sectorOfs + chunkSize <= SECTOR_SIZE
      modifies cache`clock, cache`home, cache.slots, cache.disk
      ensures cache.Valid()
      ensures chunk == cache.view[sectorIdx][sectorOfs..sectorOfs + chunkSize]
    {
      if sectorOfs == 0 && chunkSize == SECTOR_SIZE {
        chunk := cache.Read(sectorIdx);
      } else {
        var bounce := cache.Read(sectorIdx);
        chunk := bounce[sectorOfs..sectorOfs + chunkSize];
      }
    }

    /** The body of the loop of inode_write_at: a whole sector is overwritten, of any other the rest is read first. */
    method CopyIn(sectorIdx: SectorNo, sectorOfs: nat, chunk: seq<Byte>)
      requires cache.Valid() && sectorIdx < |cache.view|
      requires 0 < |chunk| && sectorOfs + |chunk| <= SECTOR_SIZE
      modifies cache, cache.slots, cache.disk
      ensures cache.Valid()
      ensures cache.view == old(cache.view)[sectorIdx := Splice(old(cache.view)[sectorIdx], sectorOfs, chunk)]
    {
      if sectorOfs == 0 && |chunk| == SECTOR_SIZE {
        assert Splice(cache.view[sectorIdx], 0, chunk) == chunk;
        cache.Write(sectorIdx, chunk);
      } else {
        var bounce: Sector;
        if sectorOfs > 0 || |chunk| < SECTOR_SIZE - sectorOfs {
          bounce := cache.Read(sectorIdx);
        } else {
          bounce := Zeros();
        }
        cache.Write(sectorIdx, Splice(bounce, sectorOfs, chunk));
      }
    }

    /** inode_read_at: what the flat byte sequence returns, whichever of the two copying paths each sector takes. */
    method ReadAt(d: InodeDisk, size0: int, offset0: nat) returns (buffer: seq<Byte>)
      requires cache.Valid() && d.Fits() && FileOk(cache.view, d, SectorsFor(d.length))
      modifies cache`clock, cache`home, cache.slots, cache.disk
      ensures cache.Valid()
      ensures buffer == Slice(Bytes(cache.view, d), offset0, size0)
    {
      hide FileOk, FileLeaf, Bytes, BufferCache.Valid, SectorsFor, Slice;
      var size, offset := size0, offset0;
      buffer := [];
      ghost var b := Bytes(cache.view, d);
      while size > 0
        invariant cache.Valid()
        invariant size == size0 - |buffer| && offset == offset0 + |buffer|
        invariant buffer == [] || (offset <= |b| && 0 <= size && buffer == b[offset0..offset])
        decreases size
      {
        var sectorIdx := ByteToSector(d, offset);
        var sectorOfs := offset % SECTOR_SIZE;
        var inodeLeft := d.length - offset;
        var sectorLeft := SECTOR_SIZE - sectorOfs;
        var minLeft := if inodeLeft < sectorLeft then inodeLeft else sectorLeft;
        var chunkSize := if size < minLeft then size else minLeft;
        if chunkSize <= 0 {
          break;
        }
        BytesChunk(cache.view, d, offset, chunkSize);
        var chunk := CopyOut(sectorIdx, sectorOfs, chunkSize);
        SliceMore(b, offset0, buffer, chunk);
        buffer := buffer + chunk;
        size := size - chunkSize;
        offset := offset + chunkSize;
      }
      SliceDone(b, offset0, size0, buffer);
    }

    /** The loop of inode_write_at, for a write that ends within the file. */
    method WriteWithin(d: InodeDisk, buffer: seq<Byte>, offset0: nat) returns (bytesWritten: nat)
      requires cache.Valid() && d.Fits() && FileOk(cache.view, d, SectorsFor(d.length))
      requires offset0 + |buffer| <= d.length
      modifies cache, cache.slots, cache.disk
      ensures cache.Valid()
      ensures bytesWritten == |buffer|
      ensures Overwritten(old(cache.view), cache.view, d, SectorsFor(d.length), offset0, buffer)
    {
      hide FileOk, FileLeaf, SectorsFor, Overwritten, BufferCache.Valid;
      ghost var n := SectorsFor(d.length);
      SectorsForBounds(d.length);
      var size, offset := |buffer|, offset0;
      bytesWritten := 0;
      OverwrittenNone(cache.view, d, n, offset0);
      while size > 0
        invariant cache.Valid()
        invariant size == |buffer| - bytesWritten && offset == offset0 + bytesWritten
        invariant 0 <= bytesWritten <= |buffer|
        invariant Overwritten(old(cache.view), cache.view, d, n, offset0, buffer[..bytesWritten])
        decreases size
      {
        OverwrittenOk(old(cache.view), cache.view, d, n, offset0, buffer[..bytesWritten]);
        var sectorIdx := ByteToSector(d, offset);
        var sectorOfs := offset % SECTOR_SIZE;
        var inodeLeft := d.length - offset;
        var sectorLeft := SECTOR_SIZE - sectorOfs;
        var minLeft := if inodeLeft < sectorLeft then inodeLeft else sectorLeft;
        var chunkSize := if size < minLeft then size else minLeft;
        if chunkSize <= 0 {
          break;
        }
        BytesChunk(cache.view, d, offset, chunkSize);
        ghost var before := cache.view;
        var chunk := buffer[bytesWritten..bytesWritten + chunkSize];
        CopyIn(sectorIdx, sectorOfs, chunk);
        OverwrittenStep(old(cache.view), before, d, n, offset0, buffer[..bytesWritten], chunk, cache.view[sectorIdx]);
        assert buffer[..bytesWritten] + chunk == buffer[..bytesWritten + chunkSize];
        size := size - chunkSize;
        offset := offset + chunkSize;
        bytesWritten := bytesWritten + chunkSize;
      }
      assert buffer[..bytesWritten] == buffer;
    }

    // ----- the free map

    /** bitmap_write on the free-map file. Its length covers the image, so inode_write_at does not extend it. */
    method BitmapWrite() returns (ok: bool)
      requires Machine() && MapFile() && freeMapFile != null
      modifies cache, cache.slots, cache.disk
      ensures Ready()
      ensures ok
      ensures AgreeOff(old(cache.view), cache.view, mapNodes)
    {
      var image := ImageOf(freeMap.bits[..]);
      var d := freeMapFile.data;
      ghost var v0 := cache.view;
      assert |image| == d.length && |image| > 0;
      ImageRoundTrip(freeMap.bits[..], freeMap.model);
      hide FileOk, FileLeaf, Overwritten, ImageOf, ImageModel, FileNodes, FileData, Bytes, SectorsFor,
        BufferCache.Valid, Bitmap.Valid;
      var beyond := BeyondEnd(d, |image| - 1);
      assert !beyond;
      var written := WriteWithin(d, image, 0);
      OverwrittenWhole(v0, cache.view, d, image);
      ok := written == |image|;
    }

    /** free_map_allocate for one sector: the least free one, and the free-map file follows. The write
        to that file never falls short (see BitmapWrite), so the roll-back for that case has nothing to do. */
    method Allocate() returns (ok: bool, sector: SectorNo)
      requires Ready()
      modifies cache, cache.slots, cache.disk, freeMap, freeMap.bits
      ensures Ready()
      ensures AgreeOff(old(cache.view), cache.view, mapNodes)
      ensures ok <==> Free(old(freeMap.model)) > 0
      ensures ok ==> Taken(old(freeMap.model), sector, freeMap.model)
      ensures !ok ==> freeMap.model == old(freeMap.model) && cache.view == old(cache.view)
    {
      hide FileOk, FileNodes, FileData, Bytes, SectorsFor, BufferCache.Valid, Free, Used, SetRange, Taken, ImageModel;
      ghost var bits := freeMap.model;
      var idx := freeMap.ScanAndFlip(0, 1, false);
      if idx == BITMAP_ERROR {
        NoGroup(bits);
        return false, 0;
      }
      MarkFirst(bits, idx);
      TakenFirst(bits, idx);
      sector := idx;
      ok := true;
      if freeMapFile != null {
        ok := BitmapWrite();
      }
    }

    /** free_map_release for one sector. The first assertion of the source is the precondition. */
    method Release(sector: SectorNo)
      requires Ready() && freeMapFile != null
      requires 0 < sector < |freeMap.model| && freeMap.model[sector] && sector as int !in mapNodes
      modifies cache, cache.slots, cache.disk, freeMap, freeMap.bits
      ensures Ready()
      ensures AgreeOff(old(cache.view), cache.view, mapNodes)
      ensures freeMap.model == old(freeMap.model)[sector := false]
    {
      hide FileOk, FileNodes, FileData, Bytes, SectorsFor, BufferCache.Valid, Free, ImageModel;
      var all := freeMap.All(sector, 1);
      assert all;
      freeMap.SetMultiple(sector, 1, false);
      assert freeMap.model == old(freeMap.model)[sector := false];
      ClearOne(old(freeMap.model), sector);
      var ok := BitmapWrite();
    }

    /** num_free_sectors */
    method NumFreeSectors() returns (n: nat)
      requires Ready()
      ensures n == Free(freeMap.model)
    {
      hide FileOk, FileNodes, Bytes, ImageModel, BufferCache.Valid, Stands, SectorsFor, Used;
      n := freeMap.CountBits(0, freeMap.bitCnt, false);
      assert freeMap.model[0..freeMap.bitCnt] == freeMap.model;
    }

    // ----- growing a file

    /** buffer_cache_write to a sector that is not part of the free-map file. */
    method WriteBlock(sector: SectorNo, source: Sector)
      requires Ready()
      requires sector < |cache.view| && sector as int !in mapNodes
      modifies cache, cache.slots, cache.disk
      ensures Ready()
      ensures cache.view == old(cache.view)[sector := source]
    {
      ghost var v := cache.view;
      cache.Write(sector, source);
      if freeMapFile != null {
        RawFrame(v, cache.view, freeMapFile.data, SectorsFor(freeMapFile.data.length));
      }
    }

    /** buffer_cache_read */
    method ReadBlock(sector: SectorNo) returns (target: Sector)
      requires Ready()
      requires sector < |cache.view|
      modifies cache`clock, cache`home, cache.slots, cache.disk
      ensures Ready()
      ensures target == cache.view[sector]
    {
      target := cache.Read(sector);
    }

    /** The first step of inode_reserve_indirect above the data level: a null pointer gets a zeroed block,
        and the block is read. The result of the allocation is ignored: with no free sector left the
        pointer stays null and sector 0 is filled with zeros. */
    method IndexBlockOf(entry: SectorNo, level: nat, ghost n: nat) returns (p: SectorNo, blocks: IndexBlock)
      requires Ready()
      requires 0 < level <= 2 && TreeOk(cache.view, Root(entry, level, n))
      requires Nodes(cache.view, Root(entry, level, n)) <= Used(freeMap.model)
      requires Nodes(cache.view, Root(entry, level, n)) !! mapNodes
      modifies cache, cache.slots, cache.disk, freeMap, freeMap.bits
      ensures Ready()
      ensures p < |cache.view| && blocks == BlockAt(cache.view, p)
      ensures n > 0 || Free(old(freeMap.model)) > 0 ==>
                Started(old(cache.view), old(freeMap.model), Root(entry, level, n), cache.view, freeMap.model, p,
                        mapNodes)
      ensures n == 0 && Free(old(freeMap.model)) == 0 ==>
                && p == 0 && blocks == NoPointers() && freeMap.model == old(freeMap.model)
                && AgreeOff(old(cache.view), cache.view, {0})
      ensures First(cache.view) == if n == 0 && Free(old(freeMap.model)) == 0 then Zeros() else First(old(cache.view))
    {
      hide Ready, TreeOk, Nodes, Used, Free;
      ReadyFacts();
      RootPtr(cache.view, Root(entry, level, n));
      p := entry;
      if p == 0 {
        ghost var v0, bits0 := cache.view, freeMap.model;
        var ok, sector := Allocate();
        if ok {
          p := sector;
          TakenStarted(v0, bits0, level, cache.view, freeMap.model, p, mapNodes);
          TakenFree(bits0, p, freeMap.model);
        }
        WriteBlock(p, Zeros());
        ZerosDecode();
      }
      var block := ReadBlock(p);
      blocks := DecodeIndex(block);
    }

    /** One data pointer: take a sector if the pointer is null, and fill it with zeros
        (the base case of inode_reserve_indirect and the body of the direct loop of inode_reserve). */
    method ReserveSector(entry0: SectorNo, ghost n: nat) returns (ok: bool, entry: SectorNo)
      requires Ready()
      requires TreeOk(cache.view, Root(entry0, 0, n))
      requires Nodes(cache.view, Root(entry0, 0, n)) <= Used(freeMap.model)
      modifies cache, cache.slots, cache.disk, freeMap, freeMap.bits
      ensures Ready()
      ensures ok <==> Free(old(freeMap.model)) + n >= 1
      ensures ok ==> TreeReserved(old(cache.view), old(freeMap.model), Root(entry0, 0, n),
                                  cache.view, freeMap.model, Root(entry, 0, 1), mapNodes)
      ensures !ok ==> Stuck(old(cache.view), old(freeMap.model), Index(old(cache.view), Root(entry0, 0, n)),
                            cache.view, freeMap.model, mapNodes)
      ensures First(cache.view) == First(old(cache.view))
      ensures !ok ==> Free(freeMap.model) == 0
      ensures Idle(old(cache.view), old(freeMap.model), cache.view, freeMap.model)
      ensures entry0 != 0 ==> entry == entry0
      ensures Free(old(freeMap.model)) == 0 ==> entry == entry0
    {
      hide Ready, TreeOk, Nodes, Index, Used, Free, TreeReserved, Taken;
      ghost var v0, bits0 := cache.view, freeMap.model;
      LeafRoot(v0, entry0, n);
      ReadyFacts();
      entry := entry0;
      if entry == 0 {
        var got, sector := Allocate();
        if !got {
          return false, entry;
        }
        entry := sector;
        TakenFree(bits0, sector, freeMap.model);
        TakenCount(bits0, sector, freeMap.model);
        LeafReserved(v0, bits0, cache.view, freeMap.model, sector, mapNodes);
        WriteBlock(entry, Zeros());
      } else {
        TreeReservedNone(v0, bits0, Root(entry0, 0, n), mapNodes);
      }
      ok := true;
    }

    /** inode_reserve_indirect: makes the tree below a pointer reach numSectors data sectors; n is how many
        it reaches before. It succeeds exactly if there are enough free sectors, index blocks counted. */
    method ReserveIndirect(entry0: SectorNo, numSectors: nat, level: nat, ghost n: nat)
      returns (ok: bool, entry: SectorNo)
      requires Ready()
      requires level <= 2 && n <= numSectors <= Cap(level) && 0 < numSectors
      requires TreeOk(cache.view, Root(entry0, level, n))
      requires Nodes(cache.view, Root(entry0, level, n)) <= Used(freeMap.model)
      requires Nodes(cache.view, Root(entry0, level, n)) !! mapNodes
      modifies cache, cache.slots, cache.disk, freeMap, freeMap.bits
      ensures Ready()
      ensures ok <==> Free(old(freeMap.model)) + TreeSize(level, n) >= TreeSize(level, numSectors)
      ensures ok ==> TreeReserved(old(cache.view), old(freeMap.model), Root(entry0, level, n),
                                  cache.view, freeMap.model, Root(entry, level, numSectors), mapNodes)
      ensures !ok ==> Stuck(old(cache.view), old(freeMap.model), Index(old(cache.view), Root(entry0, level, n)),
                            cache.view, freeMap.model, mapNodes)
      ensures var s := Free(old(freeMap.model)) + TreeSize(level, n);
        First(cache.view) == if !ok && TreeGap(level, s, n, numSectors) then Zeros() else First(old(cache.view))
      ensures !ok ==> Free(freeMap.model) == 0
      ensures Idle(old(cache.view), old(freeMap.model), cache.view, freeMap.model)
      ensures entry0 != 0 ==> entry == entry0
      ensures Free(old(freeMap.model)) == 0 ==> entry == entry0
      decreases level, 2
    {
      hide Ready, TreeOk, Nodes, Index, Used, Free, TreeReserved, Stuck, TreeGap;
      if level == 0 {
        LeafGap(Free(freeMap.model) + TreeSize(level, n), n, numSectors);
        ok, entry := ReserveSector(entry0, n);
      } else {
        ok, entry := ReserveBlock(entry0, numSectors, level, n);
      }
    }

    /** The part of inode_reserve_indirect above the data level. */
    method ReserveBlock(entry0: SectorNo, numSectors: nat, level: nat, ghost n: nat) returns (ok: bool, entry: SectorNo)
      requires Ready()
      requires 0 < level <= 2 && n <= numSectors <= Cap(level) && 0 < numSectors
      requires TreeOk(cache.view, Root(entry0, level, n))
      requires Nodes(cache.view, Root(entry0, level, n)) <= Used(freeMap.model)
      requires Nodes(cache.view, Root(entry0, level, n)) !! mapNodes
      modifies cache, cache.slots, cache.disk, freeMap, freeMap.bits
      ensures Ready()
      ensures ok <==> Free(old(freeMap.model)) + TreeSize(level, n) >= TreeSize(level, numSectors)
      ensures ok ==> TreeReserved(old(cache.view), old(freeMap.model), Root(entry0, level, n),
                                  cache.view, freeMap.model, Root(entry, level, numSectors), mapNodes)
      ensures !ok ==> Stuck(old(cache.view), old(freeMap.model), Index(old(cache.view), Root(entry0, level, n)),
                            cache.view, freeMap.model, mapNodes)
      ensures var s := Free(old(freeMap.model)) + TreeSize(level, n);
        First(cache.view) == if !ok && TreeGap(level, s, n, numSectors) then Zeros() else First(old(cache.view))
      ensures !ok ==> Free(freeMap.model) == 0
      ensures Idle(old(cache.view), old(freeMap.model), cache.view, freeMap.model)
      ensures entry0 != 0 ==> entry == entry0
      ensures Free(old(freeMap.model)) == 0 ==> entry == entry0
      decreases level, 1
    {
      hide Ready, TreeOk, Nodes, Index, Used, Free, TreeReserved, Stuck, Started, Extended, Kids, Settled, ForestNodes,
        ForestIndex, KidsSize, Entries, TreeSize, TreeGap, KidsGap, First, Idle;
      ghost var v0, bits0, r := cache.view, freeMap.model, Root(entry0, level, n);
      ReadyFacts();
      RootPtr(v0, r);
      TreeSizeOf(level, n);
      TreeSizeOf(level, numSectors);
      var blocks;
      entry, blocks := IndexBlockOf(entry0, level, n);
      ghost var v1, bits1 := cache.view, freeMap.model;
      ghost var full := n == 0 && Free(bits0) == 0;
      if full {
        IdleNull(v0, bits0, v1);
        NullEntries(v1, bits1, level, numSectors, mapNodes);
        KidsSizeBounds(level, 0);
        KidsSizeBounds(level, numSectors);
      } else {
        StartedForest(v0, bits0, r, v1, bits1, entry, mapNodes);
        EntriesOfKids(v1, entry, level, n, numSectors);
        StartedFree(v0, bits0, r, v1, bits1, entry, mapNodes);
        StartedIdle(v0, bits0, r, v1, bits1, entry, mapNodes);
      }
      ok, blocks := ReserveEntries(blocks, numSectors, level, n);
      IdleStep(v0, bits0, v1, bits1, cache.view, freeMap.model);
      if !ok {
        BlockGap(level, n, numSectors, Free(bits0));
        TreeSizeNone(level);
        KidsSizeBounds(level, 0);
        if full {
          StuckNull(v0, bits0, r, v1, cache.view, freeMap.model, mapNodes);
        } else {
          StuckBlock(v0, bits0, r, v1, bits1, entry, cache.view, freeMap.model, mapNodes);
        }
        return;
      }
      BlockFinished(v0, bits0, r, v1, bits1, entry, cache.view, freeMap.model, blocks, numSectors, mapNodes);
      FirstKept(cache.view, entry, EncodeIndex(blocks));
      IdleBlock(v0, bits0, cache.view, freeMap.model, entry, blocks);
      WriteBlock(entry, EncodeIndex(blocks));
    }

    /** The loop of inode_reserve_indirect over the entries of an index block. */
    method ReserveEntries(blocks0: IndexBlock, numSectors0: nat, level: nat, ghost n: nat)
      returns (ok: bool, blocks: IndexBlock)
      requires Ready()
      requires 0 < level <= 2 && n <= numSectors0 <= Cap(level) && 0 < numSectors0
      requires Settled(cache.view, freeMap.model, Entries(blocks0, level, n, numSectors0, 0), mapNodes)
      modifies cache, cache.slots, cache.disk, freeMap, freeMap.bits
      ensures Ready()
      ensures ok <==> Free(old(freeMap.model)) + KidsSize(level, n) >= KidsSize(level, numSectors0)
      ensures ok ==> Extended(old(cache.view), old(freeMap.model), Entries(blocks0, level, n, numSectors0, 0),
                              cache.view, freeMap.model, Entries(blocks, level, n, numSectors0, PTRS), mapNodes)
      ensures ok ==> Free(freeMap.model) + KidsSize(level, numSectors0) == Free(old(freeMap.model)) + KidsSize(level, n)
      ensures !ok ==> Stuck(old(cache.view), old(freeMap.model),
                            ForestIndex(old(cache.view), Entries(blocks0, level, n, numSectors0, 0)),
                            cache.view, freeMap.model, mapNodes)
      ensures var s := Free(old(freeMap.model)) + KidsSize(level, n);
        First(cache.view) == if !ok && KidsGap(level, s, n, numSectors0) then Zeros() else First(old(cache.view))
      ensures !ok ==> Free(freeMap.model) == 0
      ensures Idle(old(cache.view), old(freeMap.model), cache.view, freeMap.model)
      ensures Free(old(freeMap.model)) == 0 ==> blocks == blocks0
      decreases level, 0
    {
      hide Ready, TreeOk, Nodes, Index, Used, Free, TreeReserved, Stuck, Extended, Settled, ForestNodes, ForestIndex,
        KidsSize, Entries, TreeSize, TreeGap, KidsGap, First, Idle, Filling;
      ghost var v0, bits0, m := cache.view, freeMap.model, numSectors0;
      FillingNone(v0, bits0, blocks0, level, n, m, mapNodes);
      blocks := blocks0;
      var unit := if level == 1 then 1 else PTRS;
      var numSectors := numSectors0;
      var l := (numSectors + unit - 1) / unit;
      for i := 0 to l
        invariant Ready() && First(cache.view) == First(v0)
        invariant Filling(v0, bits0, blocks0, level, n, m, cache.view, freeMap.model, blocks, i, mapNodes)
        invariant numSectors == m - Covered(level, m, i)
      {
        var subsize := Min(numSectors, unit);
        ghost var v, bits := cache.view, freeMap.model;
        var child;
        FillingNext(v0, bits0, blocks0, level, n, m, v, bits, blocks, i, mapNodes);
        ok, child := ReserveIndirect(blocks[i], subsize, level - 1, Portion(n, i, level - 1));
        if !ok {
          FillingStuck(v0, bits0, blocks0, level, n, m, v, bits, blocks, i, cache.view, freeMap.model, mapNodes);
          EntryGap(level, n, m, i, Free(bits0), Free(bits));
          return;
        }
        FillingStep(v0, bits0, blocks0, level, n, m, v, bits, blocks, i, cache.view, freeMap.model, child, mapNodes);
        blocks := blocks[i := child];
        numSectors := numSectors - subsize;
      }
      FillingDone(v0, bits0, blocks0, level, n, m, cache.view, freeMap.model, blocks, l, mapNodes);
      assert numSectors == 0;
      ok := true;
    }

    /** The direct-block loop of inode_reserve. */
    method ReserveDirect(d0: InodeDisk, l: nat, ghost n: nat, ghost m: nat) returns (ok: bool, d: InodeDisk)
      requires Ready()
      requires |d0.direct| == DIRECT_BLOCKS && n <= MAX_SECTORS && l == Min(m, DIRECT_BLOCKS)
      requires m == 0 || n <= m <= MAX_SECTORS
      requires Settled(cache.view, freeMap.model, Roots(d0, n), mapNodes)
      modifies cache, cache.slots, cache.disk, freeMap, freeMap.bits
      ensures Ready()
      ensures |d.direct| == DIRECT_BLOCKS
      ensures ok ==> Partly(old(cache.view), old(freeMap.model), d0, n, m, cache.view, freeMap.model, d, l, mapNodes)
      ensures !ok ==> Stuck(old(cache.view), old(freeMap.model), FileIndex(old(cache.view), d0, n),
                            cache.view, freeMap.model, mapNodes)
      ensures !ok ==> Free(old(freeMap.model)) + FileSize(n) < FileSize(m)
      ensures !ok ==> !FileGap(Free(old(freeMap.model)) + FileSize(n), n, m)
      ensures First(cache.view) == First(old(cache.view))
      ensures m == 0 ==> ok && d == d0 && cache.view == old(cache.view) && freeMap.model == old(freeMap.model)
      ensures !ok ==> Free(freeMap.model) == 0
      ensures Idle(old(cache.view), old(freeMap.model), cache.view, freeMap.model)
      ensures d.indirect == d0.indirect && d.doubly == d0.doubly
      ensures PointersKept(d0, d)
      ensures Free(old(freeMap.model)) == 0 ==> d == d0
      ensures (d.isDir, d.length, d.magic) == (d0.isDir, d0.length, d0.magic)
    {
      hide Ready, TreeOk, Nodes, Index, Used, Free, TreeReserved, Stuck, Partly, Settled, FileIndex, FileSize, TreeSize,
        First, FileGap, Idle;
      ghost var v0, bits0 := cache.view, freeMap.model;
      d := d0;
      IdleNone(v0, bits0);
      PartlyNone(v0, bits0, d0, n, m, mapNodes);
      for i := 0 to l
        invariant Ready() && First(cache.view) == First(v0)
        invariant |d.direct| == DIRECT_BLOCKS
        invariant Partly(v0, bits0, d0, n, m, cache.view, freeMap.model, d, i, mapNodes)
        invariant i == 0 ==> d == d0 && cache.view == v0 && freeMap.model == bits0
        invariant Idle(v0, bits0, cache.view, freeMap.model)
        invariant PointersKept(d0, d)
        invariant forall j :: i <= j < DIRECT_BLOCKS ==> d.direct[j] == d0.direct[j]
        invariant d.indirect == d0.indirect && d.doubly == d0.doubly
        invariant Free(bits0) == 0 ==> d == d0 && freeMap.model == bits0
        invariant (d.isDir, d.length, d.magic) == (d0.isDir, d0.length, d0.magic)
      {
        ghost var v, bits := cache.view, freeMap.model;
        var entry;
        PartlyNext(v0, bits0, d0, n, m, v, bits, d, i, mapNodes);
        assert RootAt(d, n, i) == Root(d.direct[i], 0, Over(n, i, 1));
        ok, entry := ReserveSector(d.direct[i], Over(n, i, 1));
        IdleStep(v0, bits0, v, bits, cache.view, freeMap.model);
        IdleBits(v0, bits0, cache.view, freeMap.model);
        if !ok {
          TreeSizeLeaf(Over(n, i, 1));
          TreeSizeLeaf(Over(m, i, 1));
          PartlyFree(v0, bits0, d0, n, m, v, bits, d, i, mapNodes);
          DirectGap(n, m, i, Free(bits0));
          PartlyStuck(v0, bits0, d0, n, m, v, bits, d, i, cache.view, freeMap.model, mapNodes);
          return;
        }
        PartlyStep(v0, bits0, d0, n, m, v, bits, d, i, cache.view, freeMap.model, entry, mapNodes);
        d := d.(direct := d.direct[i := entry]);
      }
      ok := true;
    }

    /** inode_reserve: makes the file reach as many data sectors as `length` bytes need; n is how many it
        reaches before. */
    method Reserve(d0: InodeDisk, length: int, ghost n: nat) returns (ok: bool, d: InodeDisk)
      requires Ready()
      requires |d0.direct| == DIRECT_BLOCKS && n <= MAX_SECTORS
      requires SectorsFor(length) == 0 || n <= SectorsFor(length) <= MAX_SECTORS
      requires Settled(cache.view, freeMap.model, Roots(d0, n), mapNodes)
      modifies cache, cache.slots, cache.disk, freeMap, freeMap.bits
      ensures Ready()
      ensures |d.direct| == DIRECT_BLOCKS
      ensures ok <==> 0 <= length && Free(old(freeMap.model)) + FileSize(n) >= FileSize(SectorsFor(length))
      ensures ok && n <= SectorsFor(length) ==>
                Reserved(old(cache.view), old(freeMap.model), d0, n, cache.view, freeMap.model, d, SectorsFor(length),
                         mapNodes)
      ensures !ok ==> Stuck(old(cache.view), old(freeMap.model), FileIndex(old(cache.view), d0, n),
                            cache.view, freeMap.model, mapNodes)
      ensures First(cache.view) == if !ok && FileGap(Free(old(freeMap.model)) + FileSize(n), n, SectorsFor(length))
                                   then Zeros() else First(old(cache.view))
      ensures SectorsFor(length) == 0 ==>
        d == d0 && cache.view == old(cache.view) && freeMap.model == old(freeMap.model)
      ensures !ok && 0 <= length ==> Free(freeMap.model) == 0
      ensures Idle(old(cache.view), old(freeMap.model), cache.view, freeMap.model)
      ensures PointersKept(d0, d)
      ensures Free(old(freeMap.model)) == 0 ==> d == d0
      ensures (d.isDir, d.length, d.magic) == (d0.isDir, d0.length, d0.magic)
    {
      hide Ready, TreeOk, Nodes, Index, Used, Free, TreeReserved, Partly, Settled, FileIndex, FileSize, TreeSize,
        Reserved, SectorsFor, First, FileGap, Idle;
      ghost var v0, bits0, m := cache.view, freeMap.model, SectorsFor(length);
      if length < 0 {
        NoGap(Free(bits0) + FileSize(n), n, length);
        NothingStuck(v0, bits0, FileIndex(v0, d0, n), mapNodes);
        IdleNone(v0, bits0);
        return false, d0;
      }
      var numSectors := SectorsFor(length);
      var l := Min(numSectors, DIRECT_BLOCKS);
      ok, d := ReserveDirect(d0, l, n, m);
      if !ok {
        return;
      }
      numSectors := numSectors - l;
      if numSectors == 0 {
        PointersSizeAll(m);
        if n <= m {
          PartlyDone(v0, bits0, d0, n, m, cache.view, freeMap.model, d, l, mapNodes);
        }
        return true, d;
      }
      ok, d := ReserveTrees(d0, d, numSectors, v0, bits0, n, m);
    }

    /** The single and double indirect blocks of inode_reserve. */
    method ReserveTrees(ghost d0: InodeDisk, d1: InodeDisk, numSectors0: nat, ghost v0: View, ghost bits0: seq<bool>,
                        ghost n: nat, ghost m: nat) returns (ok: bool, d: InodeDisk)
      requires Ready()
      requires |d0.direct| == DIRECT_BLOCKS && |d1.direct| == DIRECT_BLOCKS
      requires n <= m <= MAX_SECTORS && 0 < numSectors0 == m - DIRECT_BLOCKS
      requires Settled(v0, bits0, Roots(d0, n), mapNodes)
      requires Partly(v0, bits0, d0, n, m, cache.view, freeMap.model, d1, 123, mapNodes)
      requires First(cache.view) == First(v0)
      requires Idle(v0, bits0, cache.view, freeMap.model)
      requires d1.indirect == d0.indirect && d1.doubly == d0.doubly
      requires PointersKept(d0, d1)
      requires Free(bits0) == 0 ==> d1 == d0
      requires (d1.isDir, d1.length, d1.magic) == (d0.isDir, d0.length, d0.magic)
      modifies cache, cache.slots, cache.disk, freeMap, freeMap.bits
      ensures Ready()
      ensures |d.direct| == DIRECT_BLOCKS
      ensures ok <==> Free(bits0) + FileSize(n) >= FileSize(m)
      ensures ok ==> Reserved(v0, bits0, d0, n, cache.view, freeMap.model, d, m, mapNodes)
      ensures !ok ==> Stuck(v0, bits0, FileIndex(v0, d0, n), cache.view, freeMap.model, mapNodes)
      ensures First(cache.view) == if !ok && FileGap(Free(bits0) + FileSize(n), n, m) then Zeros() else First(v0)
      ensures !ok ==> Free(freeMap.model) == 0
      ensures Idle(v0, bits0, cache.view, freeMap.model)
      ensures PointersKept(d0, d)
      ensures Free(bits0) == 0 ==> d == d0
      ensures (d.isDir, d.length, d.magic) == (d0.isDir, d0.length, d0.magic)
    {
      hide Ready, TreeOk, Nodes, Index, Used, Free, TreeReserved, Partly, Settled, FileIndex, FileSize, TreeSize,
        Reserved, Stuck, First, FileGap, TreeGap, PointersSize, Idle;
      d := d1;
      var numSectors := numSectors0;
      var l := Min(numSectors, PTRS);
      ghost var v, bits := cache.view, freeMap.model;
      var entry;
      PartlyNext(v0, bits0, d0, n, m, v, bits, d, 123, mapNodes);
      assert RootAt(d, n, 123) == Root(d.indirect, 1, Over(n, 123, 128)) && l == Over(m, 123, 128);
      ok, entry := ReserveIndirect(d.indirect, l, 1, Over(n, 123, 128));
      IdleBits(v0, bits0, v, bits);
      IdleStep(v0, bits0, v, bits, cache.view, freeMap.model);
      if !ok {
        PartlyFree(v0, bits0, d0, n, m, v, bits, d, 123, mapNodes);
        PointerGap(1, n, m, Free(bits0), Free(bits));
        PartlyStuck(v0, bits0, d0, n, m, v, bits, d, 123, cache.view, freeMap.model, mapNodes);
        d := d.(indirect := entry);
        return;
      }
      PartlyStep(v0, bits0, d0, n, m, v, bits, d, 123, cache.view, freeMap.model, entry, mapNodes);
      d := d.(indirect := entry);
      numSectors := numSectors - l;
      if numSectors == 0 {
        PartlyDone(v0, bits0, d0, n, m, cache.view, freeMap.model, d, 124, mapNodes);
        return;
      }
      l := Min(numSectors, PTRS * PTRS);
      v, bits := cache.view, freeMap.model;
      PartlyNext(v0, bits0, d0, n, m, v, bits, d, 124, mapNodes);
      assert RootAt(d, n, 124) == Root(d.doubly, 2, Over(n, 251, 16384)) && l == Over(m, 251, 16384);
      ok, entry := ReserveIndirect(d.doubly, l, 2, Over(n, 251, 16384));
      IdleBits(v0, bits0, v, bits);
      IdleStep(v0, bits0, v, bits, cache.view, freeMap.model);
      if !ok {
        PartlyFree(v0, bits0, d0, n, m, v, bits, d, 124, mapNodes);
        PointerGap(2, n, m, Free(bits0), Free(bits));
        PartlyStuck(v0, bits0, d0, n, m, v, bits, d, 124, cache.view, freeMap.model, mapNodes);
        d := d.(doubly := entry);
        return;
      }
      PartlyStep(v0, bits0, d0, n, m, v, bits, d, 124, cache.view, freeMap.model, entry, mapNodes);
      d := d.(doubly := entry);
      numSectors := numSectors - l;
      assert numSectors == 0;
      PartlyDone(v0, bits0, d0, n, m, cache.view, freeMap.model, d, 125, mapNodes);
    }

    // ----- giving the sectors of a file back

    /** inode_deallocate_indirect: every sector of the tree is released exactly once. */
    method DeallocateIndirect(entry: SectorNo, numSectors: nat, level: nat)
      requires Ready() && freeMapFile != null
      requires TreeOk(cache.view, Root(entry, level, numSectors)) && 0 < numSectors
      requires Nodes(cache.view, Root(entry, level, numSectors)) <= Used(freeMap.model)
      requires Nodes(cache.view, Root(entry, level, numSectors)) !! mapNodes
      modifies cache, cache.slots, cache.disk, freeMap, freeMap.bits
      ensures Ready()
      ensures Released(old(cache.view), old(freeMap.model), Nodes(old(cache.view), Root(entry, level, numSectors)),
                       TreeSize(level, numSectors), cache.view, freeMap.model, mapNodes)
      decreases level, 1
    {
      hide Ready, TreeOk, Nodes, Used, Free, Released, TreeSize, ForestNodes, ForestOk, Kids;
      ghost var v0, bits0, r := cache.view, freeMap.model, Root(entry, level, numSectors);
      RootPtr(v0, r);
      RootUsed(v0, bits0, r);
      if level == 0 {
        TreeSizeLeaf(numSectors);
        LeafReleased(v0, bits0, r);
        Release(entry);
        ReleasedSelf(v0, bits0, cache.view, entry, mapNodes);
        return;
      }
      KidsForest(v0, r);
      TreeSizeOf(level, numSectors);
      var block := ReadBlock(entry);
      DeallocateEntries(DecodeIndex(block), numSectors, level, r);
      ReleasedFacts(v0, bits0, ForestNodes(v0, Kids(v0, r)), KidsSize(level, numSectors), cache.view, freeMap.model,
                    mapNodes, entry);
      ghost var v, bits := cache.view, freeMap.model;
      Release(entry);
      ReleaseRoot(v0, bits0, ForestNodes(v0, Kids(v0, r)), KidsSize(level, numSectors), v, bits, cache.view, entry,
                  mapNodes);
      assert Nodes(v0, r) == ForestNodes(v0, Kids(v0, r)) + {entry as int};
    }

    method DeallocateEntries(blocks: IndexBlock, numSectors0: nat, level: nat, ghost r: Root)
      requires Ready() && freeMapFile != null
      requires 0 < level <= 2 && r.level == level && r.count == numSectors0 <= Cap(level)
      requires blocks == BlockAt(cache.view, r.ptr)
      requires ForestOk(cache.view, Kids(cache.view, r))
      requires ForestNodes(cache.view, Kids(cache.view, r)) <= Used(freeMap.model)
      requires ForestNodes(cache.view, Kids(cache.view, r)) !! mapNodes
      modifies cache, cache.slots, cache.disk, freeMap, freeMap.bits
      ensures Ready()
      ensures Released(old(cache.view), old(freeMap.model), ForestNodes(old(cache.view), Kids(old(cache.view), r)),
                       KidsSize(level, numSectors0), cache.view, freeMap.model, mapNodes)
      decreases level, 0
    {
      hide Ready, TreeOk, Nodes, Used, Free, Released, TreeSize, ForestNodes, ForestOk, KidsSize, NodesBefore;
      ghost var v0, bits0, f := cache.view, freeMap.model, Kids(cache.view, r);
      var unit := if level == 1 then 1 else PTRS;
      var numSectors := numSectors0;
      var l := (numSectors + unit - 1) / unit;
      ReleasedNone(v0, bits0, f, mapNodes);
      CoveredStep(level, numSectors0, 0);
      KidsSizeBounds(level, 0);
      for i := 0 to l
        invariant Ready() && freeMapFile != null
        invariant numSectors == numSectors0 - Covered(level, numSectors0, i)
        invariant Released(v0, bits0, NodesBefore(v0, f, i), KidsSize(level, Covered(level, numSectors0, i)),
                           cache.view, freeMap.model, mapNodes)
      {
        var subsize := Min(numSectors, unit);
        ghost var v, bits := cache.view, freeMap.model;
        ghost var size := KidsSize(level, Covered(level, numSectors0, i));
        CoveredStep(level, numSectors0, i);
        ReleaseNext(v0, bits0, f, i, size, v, bits, mapNodes);
        assert f[i] == Root(blocks[i], level - 1, subsize);
        DeallocateIndirect(blocks[i], subsize, level - 1);
        ReleaseStep(v0, bits0, f, i, size, v, bits, TreeSize(level - 1, subsize), cache.view, freeMap.model, mapNodes);
        numSectors := numSectors - subsize;
      }
      assert numSectors == 0;
      ReleaseAll(v0, f, l);
    }

    /** inode_deallocate */
    method Deallocate(d: InodeDisk) returns (ok: bool)
      requires Ready() && freeMapFile != null
      requires d.Fits() && FileOk(cache.view, d, SectorsFor(d.length))
      requires FileNodes(cache.view, d, SectorsFor(d.length)) <= Used(freeMap.model)
      requires FileNodes(cache.view, d, SectorsFor(d.length)) !! mapNodes
      modifies cache, cache.slots, cache.disk, freeMap, freeMap.bits
      ensures Ready()
      ensures ok
      ensures Released(old(cache.view), old(freeMap.model), FileNodes(old(cache.view), d, SectorsFor(d.length)),
                       FileSize(SectorsFor(d.length)), cache.view, freeMap.model, mapNodes)
    {
      hide Ready, TreeOk, Nodes, Used, Free, Released, TreeSize, ForestNodes, NodesBefore, FileSize, SectorsFor;
      ghost var v0, bits0, n := cache.view, freeMap.model, SectorsFor(d.length);
      ghost var f := Roots(d, n);
      assert FileNodes(v0, d, n) == ForestNodes(v0, f) && ForestOk(v0, f) && n <= MAX_SECTORS;
      hide FileNodes, FileOk, ForestOk, PointersSize;
      var numSectors := SectorsFor(d.length);
      var l := Min(numSectors, DIRECT_BLOCKS);
      ReleasedNone(v0, bits0, f, mapNodes);
      PointersEnds(d, n, n);
      for i := 0 to l
        invariant Ready() && freeMapFile != null
        invariant Released(v0, bits0, NodesBefore(v0, f, i), PointersSize(n, i), cache.view, freeMap.model, mapNodes)
      {
        ghost var v, bits := cache.view, freeMap.model;
        ReleaseNext(v0, bits0, f, i, PointersSize(n, i), v, bits, mapNodes);
        assert f[i] == Root(d.direct[i], 0, 1);
        PointersSizeStep(n, i);
        TreeSizeLeaf(1);
        RootUsed(v, bits, f[i]);
        LeafReleased(v, bits, f[i]);
        RootPtr(v, f[i]);
        Release(d.direct[i]);
        ReleasedSelf(v, bits, cache.view, d.direct[i], mapNodes);
        ReleaseStep(v0, bits0, f, i, PointersSize(n, i), v, bits, 1, cache.view, freeMap.model, mapNodes);
      }
      ReleaseSkip(v0, f, l, DIRECT_BLOCKS);
      PointersSizeSkip(n, l);
      numSectors := numSectors - l;
      DeallocateTrees(d, numSectors, v0, bits0, n);
      ok := true;
    }

    /** The single and double indirect blocks of inode_deallocate. */
    method DeallocateTrees(d: InodeDisk, numSectors0: nat, ghost v0: View, ghost bits0: seq<bool>, ghost n: nat)
      requires Ready() && freeMapFile != null
      requires |d.direct| == DIRECT_BLOCKS && n <= MAX_SECTORS && numSectors0 == n - Min(n, DIRECT_BLOCKS)
      requires ForestOk(v0, Roots(d, n)) && ForestNodes(v0, Roots(d, n)) <= Used(bits0)
      requires ForestNodes(v0, Roots(d, n)) !! mapNodes
      requires Released(v0, bits0, NodesBefore(v0, Roots(d, n), 123), PointersSize(n, 123), cache.view, freeMap.model,
                        mapNodes)
      modifies cache, cache.slots, cache.disk, freeMap, freeMap.bits
      ensures Ready()
      ensures Released(v0, bits0, ForestNodes(v0, Roots(d, n)), FileSize(n), cache.view, freeMap.model, mapNodes)
    {
      hide Ready, TreeOk, Nodes, Used, Free, Released, TreeSize, ForestNodes, ForestOk, NodesBefore, FileSize,
        PointersSize;
      ghost var f := Roots(d, n);
      var numSectors := numSectors0;
      var l := Min(numSectors, PTRS);
      ghost var v, bits := cache.view, freeMap.model;
      ReleaseNext(v0, bits0, f, 123, PointersSize(n, 123), v, bits, mapNodes);
      PointersSizeStep(n, 123);
      PointersSizeStep(n, 124);
      PointersSizeAll(n);
      TreeSizeNone(1);
      TreeSizeNone(2);
      if l > 0 {
        assert f[123] == Root(d.indirect, 1, l);
        DeallocateIndirect(d.indirect, l, 1);
        ReleaseStep(v0, bits0, f, 123, PointersSize(n, 123), v, bits, TreeSize(1, l), cache.view, freeMap.model,
                    mapNodes);
        numSectors := numSectors - l;
      } else {
        ReleaseSkip(v0, f, 123, 124);
      }
      l := Min(numSectors, PTRS * PTRS);
      v, bits := cache.view, freeMap.model;
      ReleaseNext(v0, bits0, f, 124, PointersSize(n, 124), v, bits, mapNodes);
      if l > 0 {
        assert f[124] == Root(d.doubly, 2, l);
        DeallocateIndirect(d.doubly, l, 2);
        ReleaseStep(v0, bits0, f, 124, PointersSize(n, 124), v, bits, TreeSize(2, l), cache.view, freeMap.model,
                    mapNodes);
        numSectors := numSectors - l;
      } else {
        ReleaseSkip(v0, f, 124, 125);
      }
      assert numSectors == 0;
      ReleaseAll(v0, f, 125);
    }

    // ----- inode_write_at

    lemma HoldsFacts(loose: set<int>)
      requires Holds(loose)
      ensures Ready() && freeMapFile != null && FREE_MAP in files
      ensures VolumeOk(cache.view, freeMap.model, files, loose)
      ensures MapAt(cache.view, mapNodes)
      ensures FileOk(cache.view, InodeAt(cache.view, FREE_MAP), CountAt(cache.view, FREE_MAP))
      ensures freeMapFile.data == InodeAt(cache.view, FREE_MAP)
    {
      hide FileOk, FileNodes, VolumeOk, Machine, Persisted;
    }

    /** What the free-map file of a volume in order promises to whoever reads it back. */
    lemma RemountFacts()
      requires Valid()
      ensures InodeAt(cache.view, FREE_MAP).length == 8 * ElemCnt(freeMap.bitCnt)
      ensures ImageModel(Contents(cache.view, FREE_MAP), freeMap.bitCnt) == freeMap.model
      ensures 3 <= |cache.view| == freeMap.bitCnt + 1 < 0x1_0000_0000 && |freeMap.model| == freeMap.bitCnt
      ensures cache.Valid() && cache.disk.Length == |cache.view|
      ensures FREE_MAP in files && VolumeOk(cache.view, freeMap.model, files, {})
    {
      hide FileOk, FileNodes, VolumeOk;
    }

    lemma MachineSize()
      requires Machine()
      ensures freeMap.bitCnt + 1 == |cache.view| == cache.disk.Length && |freeMap.model| == freeMap.bitCnt
      ensures cache.Valid()
    {
    }

    lemma HoldsSize(loose: set<int>)
      requires Holds(loose)
      ensures 3 <= |cache.view|
    {
    }

    lemma ValidFiles()
      requires Valid()
      ensures FREE_MAP in files
    {
    }

    lemma ValidReady()
      requires Valid()
      ensures Ready()
    {
    }

    lemma MapFileFacts()
      requires Ready() && freeMapFile != null
      ensures freeMapFile.data.Fits()
      ensures FileOk(cache.view, freeMapFile.data, SectorsFor(freeMapFile.data.length))
      ensures FileNodes(cache.view, freeMapFile.data, SectorsFor(freeMapFile.data.length)) == mapNodes
    {
      hide FileOk, FileNodes, Machine, Persisted;
    }

    /** The loop of inode_write_at on a file apart from the free-map file. */
    method WriteApart(d: InodeDisk, buffer: seq<Byte>, offset: nat) returns (bytesWritten: nat)
      requires Ready() && d.Fits() && FileOk(cache.view, d, SectorsFor(d.length))
      requires FileNodes(cache.view, d, SectorsFor(d.length)) !! mapNodes
      requires offset + |buffer| <= d.length
      modifies cache, cache.slots, cache.disk
      ensures Ready()
      ensures bytesWritten == |buffer|
      ensures Overwritten(old(cache.view), cache.view, d, SectorsFor(d.length), offset, buffer)
    {
      hide FileOk, FileNodes, Overwritten, Used, FileIndex, FileData, Raw, SectorsFor;
      ghost var v := cache.view;
      SectorsForBounds(d.length);
      bytesWritten := WriteWithin(d, buffer, offset);
      OverwrittenApart(v, cache.view, d, SectorsFor(d.length), offset, buffer);
      if freeMapFile != null {
        RawFrame(v, cache.view, freeMapFile.data, SectorsFor(freeMapFile.data.length));
      }
    }

    lemma MapInode()
      requires Valid()
      ensures freeMapFile != null && freeMapFile.data == InodeAt(cache.view, FREE_MAP)
    {
      hide Ready, VolumeOk;
    }

    lemma MapLength()
      requires Ready() && freeMapFile != null
      ensures freeMapFile.data.length > 0
    {
      hide FileOk, FileNodes, Persisted;
    }

    /** What is left of a growth from length to newLength that ran out of space: every free sector is marked and none
        is given back, only the file's index blocks ix, the free-map file's data and sector 0 may have changed, and
        that last one has exactly if the growth was refused an index block. */
    ghost predicate Refused(v: View, bits: seq<bool>, ix: set<int>, length: int, newLength: nat)
      reads cache, freeMap, `mapNodes
    {
      && Free(freeMap.model) == 0
      && Stuck(v, bits, ix, cache.view, freeMap.model, mapNodes)
      && Idle(v, bits, cache.view, freeMap.model)
      && First(cache.view) == if Wipes(bits, length, newLength) then Zeros() else First(v)
    }

    /** The open inode leads to these bytes, whatever the one on the device says. */
    ghost predicate StillReads(inode: Inode, b: seq<Byte>)
      reads cache, inode
    {
      inode.data.Fits() && SectorsFor(inode.data.length) <= MAX_SECTORS && Bytes(cache.view, inode.data) == b
    }

    lemma RefusedFacts(v: View, bits: seq<bool>, ix: set<int>, length: int, newLength: nat)
      requires Refused(v, bits, ix, length, newLength)
      ensures Free(freeMap.model) == 0 && Stuck(v, bits, ix, cache.view, freeMap.model, mapNodes)
      ensures Keeps(bits, freeMap.model)
      ensures Free(bits) == 0 && !Wipes(bits, length, newLength) ==> cache.view == v && freeMap.model == bits
      ensures First(cache.view) == if Wipes(bits, length, newLength) then Zeros() else First(v)
    {
      hide Free, Wipes;
    }

    /** The first step of inode_write_at, for a write that ends past the end of the file: reserve, then write
        back the inode with its new length. Cutting a file to length 0 is the one case in which the new
        length is smaller. */
    method Extend(inode: Inode, newLength: nat) returns (ok: bool)
      requires Valid() && IsOpen(inode)
      requires newLength <= MAX_LENGTH && (newLength == 0 || inode.data.length <= newLength)
      modifies inode`data, cache, cache.slots, cache.disk, freeMap, freeMap.bits
      ensures Ready()
      ensures ok <==>
                Free(old(freeMap.model)) + FileSize(SectorsFor(old(inode.data.length)))
                >= FileSize(SectorsFor(newLength))
      ensures ok && old(inode.data.length) <= newLength ==>
                && Valid() && IsOpen(inode) && inode.data.length == newLength
                && inode.sector < |cache.view| && InodeBytes(cache.view[inode.sector], inode.data.isDir, newLength)
                && Contents(cache.view, inode.sector)
                   == old(Contents(cache.view, inode.sector)) + ZeroBytes(newLength - old(inode.data.length))
                && Free(freeMap.model) + FileSize(SectorsFor(newLength))
                   == Free(old(freeMap.model)) + FileSize(SectorsFor(old(inode.data.length)))
      ensures ok && old(inode.data.length) <= newLength ==>
                AgreeOff(old(cache.view), cache.view, Owned(cache.view, inode.sector) + mapNodes)
      ensures newLength < old(inode.data.length) ==>
                && ok && freeMap.model == old(freeMap.model)
                && inode.data == InodeAt(cache.view, inode.sector) == old(inode.data).(length := 0)
                && Contents(cache.view, inode.sector) == []
                && !Valid()
      ensures !ok ==>
                && Refused(old(cache.view), old(freeMap.model), old(IndexBlocks(inode)), old(inode.data.length),
                           newLength)
                && InodeAt(cache.view, inode.sector) == old(inode.data) && inode.data.length == old(inode.data.length)
                && Contents(cache.view, inode.sector) == old(Contents(cache.view, inode.sector))
                && StillReads(inode, old(Contents(cache.view, inode.sector)))
      ensures forall t :: t in files && t != inode.sector && t != FREE_MAP ==> Kept(old(cache.view), cache.view, t)
      ensures !ok ==>
                if Free(old(freeMap.model)) == 0 && !Wipes(old(freeMap.model), old(inode.data.length), newLength)
                then Valid() && IsOpen(inode) && cache.view == old(cache.view) && freeMap.model == old(freeMap.model)
                else !Valid()
      ensures Header(InodeAt(cache.view, inode.sector)) == Header(inode.data) == old(Header(inode.data))
    {
      hide Ready, VolumeOk, Used, Free, FileSize, Settled, FileOk, FileNodes, FileIndex, Extended, Stuck, SectorsFor,
        Kept, Stays, Contents, EncodeInode, DecodeInode, MapAt, FileWf, TailZero, Owned, First, FileGap, InodeAt, Idle,
        InodeBytes;
      ghost var v, bits, d, s := cache.view, freeMap.model, inode.data, inode.sector as int;
      HoldsFacts({});
      OwnedUsed(v, bits, files, {}, s);
      FileWfFacts(v, s);
      FileSettled(v, bits, files, {}, s, mapNodes);
      SectorsForBounds(newLength);
      PointersSizeAll(0);
      if d.length <= newLength {
        SectorsForMonotone(d.length, newLength);
      }
      ReadyFacts();
      var data;
      ok, data := Reserve(inode.data, newLength, SectorsFor(inode.data.length));
      inode.data := data;
      if !ok {
        RefusedVolume(v, bits, files, s, cache.view, freeMap.model, mapNodes);
        BytesThrough(v, cache.view, s, d, data);
        IdleSame(v, bits, cache.view, freeMap.model);
        MapLength();
        WipedMap(cache.view);
        return;
      }
      inode.data := inode.data.(length := newLength);
      ghost var w := cache.view;
      ReadyFacts();
      MapFileFacts();
      WriteBlock(inode.sector, EncodeInode(inode.data));
      InodeLayout(inode.data);
      if d.length <= newLength {
        ReservedExtended(v, bits, d, SectorsFor(d.length), w, freeMap.model, data, SectorsFor(newLength), newLength,
                         mapNodes);
        GrownVolume(v, bits, files, {}, s, w, freeMap.model, inode.data, mapNodes);
        StaysFacts(v, cache.view, FREE_MAP);
      } else {
        TruncatedFile(v, s, w, inode.data);
        OthersKept(v, bits, files, s, cache.view);
        if Valid() {
          HoldsFacts({});
          OwnedUsed(cache.view, freeMap.model, files, {}, s);
        }
      }
    }

    /** The test at the top of inode_write_at. */
    method EndsBeyond(d: InodeDisk, end: nat) returns (beyond: bool)
      requires Ready() && d.Fits() && FileOk(cache.view, d, SectorsFor(d.length))
      modifies cache`clock, cache`home, cache.slots, cache.disk
      ensures Ready()
      ensures beyond <==> d.length < end || end == 0
    {
      hide FileOk, SectorsFor, FileNodes, Bytes;
      ReadyFacts();
      beyond := BeyondEnd(d, end - 1);
    }

    /** The loop of inode_write_at on an open file, seen from the whole volume. */
    method Overwrite(inode: Inode, buffer: seq<Byte>, offset: nat) returns (bytesWritten: nat)
      requires Valid() && IsOpen(inode)
      requires offset + |buffer| <= inode.data.length
      modifies cache, cache.slots, cache.disk
      ensures Valid() && IsOpen(inode)
      ensures bytesWritten == |buffer|
      ensures |old(Contents(cache.view, inode.sector))| == inode.data.length
      ensures Contents(cache.view, inode.sector) == Splice(old(Contents(cache.view, inode.sector)), offset, buffer)
      ensures AgreeOff(old(cache.view), cache.view, Owned(cache.view, inode.sector))
      ensures Owned(cache.view, inode.sector) == old(Owned(cache.view, inode.sector))
      ensures forall t :: t in files && t != inode.sector ==> Kept(old(cache.view), cache.view, t)
    {
      hide Ready, VolumeOk, Used, FileOk, FileNodes, FileIndex, SectorsFor, Stays, Contents, DecodeInode, MapAt,
        TailZero, Owned;
      ghost var v, s := cache.view, inode.sector as int;
      HoldsFacts({});
      OwnedUsed(v, freeMap.model, files, {}, s);
      OwnedUsed(v, freeMap.model, files, {}, FREE_MAP);
      OwnedApart(v, freeMap.model, files, {}, s, FREE_MAP);
      OwnedOf(v, s);
      OwnedOf(v, FREE_MAP);
      MapIs(v, mapNodes);
      SectorsForBounds(inode.data.length);
      ContentsSize(v, s);
      bytesWritten := WriteApart(inode.data, buffer, offset);
      OverwroteVolume(v, freeMap.model, files, {}, s, cache.view, offset, buffer);
      KeptStays(v, cache.view, FREE_MAP);
      StaysFacts(v, cache.view, FREE_MAP);
    }

    /** inode_write_at. The file becomes what the flat model says, every other ordinary file is kept, and the
        free map pays exactly for the growth; it all fails exactly when there are too few free sectors. The volume
        stays in order exactly when the write is not the truncating one and either there are enough free sectors, or
        none at all and the growth is not refused an index block first: a growth that fails keeps the sectors it
        could take, and refused an index block it fills sector 0, the free-map file's inode, with zeros. */
    method WriteAt(inode: Inode, buffer: seq<Byte>, offset: nat) returns (bytesWritten: nat)
      requires Valid() && IsOpen(inode)
      requires offset + |buffer| <= MAX_LENGTH
      modifies inode`data, cache, cache.slots, cache.disk, freeMap, freeMap.bits
      ensures Ready()
      ensures inode.denyWriteCnt > 0 ==>
                && bytesWritten == 0 && Valid() && IsOpen(inode)
                && cache.view == old(cache.view) && freeMap.model == old(freeMap.model)
      ensures var n0 := old(inode.data.length);
              inode.denyWriteCnt == 0 && !Truncates(n0, |buffer|, offset)
              && Enough(old(freeMap.model), n0, offset + |buffer|) ==>
                && bytesWritten == |buffer|
                && Valid() && IsOpen(inode)
                && Contents(cache.view, inode.sector)
                   == Written(old(Contents(cache.view, inode.sector)), offset, buffer)
                && Free(freeMap.model) + FileSize(SectorsFor(inode.data.length))
                   == Free(old(freeMap.model)) + FileSize(SectorsFor(n0))
                && AgreeOff(old(cache.view), cache.view, Owned(cache.view, inode.sector) + mapNodes)
      ensures inode.denyWriteCnt == 0 && !Enough(old(freeMap.model), old(inode.data.length), offset + |buffer|) ==>
                && bytesWritten == 0
                && Refused(old(cache.view), old(freeMap.model), old(IndexBlocks(inode)), old(inode.data.length),
                           offset + |buffer|)
                && InodeAt(cache.view, inode.sector) == old(inode.data) && inode.data.length == old(inode.data.length)
                && Contents(cache.view, inode.sector) == old(Contents(cache.view, inode.sector))
                && StillReads(inode, old(Contents(cache.view, inode.sector)))
                && (Valid() ==>
                      IsOpen(inode) && cache.view == old(cache.view) && freeMap.model == old(freeMap.model))
      ensures inode.denyWriteCnt == 0 ==>
                var bits, n0, end := old(freeMap.model), old(inode.data.length), offset + |buffer|;
                Valid() <==>
                  && !Truncates(n0, |buffer|, offset)
                  && (Enough(bits, n0, end) || (Free(bits) == 0 && !Wipes(bits, n0, end)))
      ensures inode.denyWriteCnt == 0 && Truncates(old(inode.data.length), |buffer|, offset) ==>
                && bytesWritten == 0
                && inode.data == InodeAt(cache.view, inode.sector) == old(inode.data).(length := 0)
                && Contents(cache.view, inode.sector) == []
                && !Valid()
      ensures forall t :: t in files && t != inode.sector && t != FREE_MAP ==> Kept(old(cache.view), cache.view, t)
      ensures Header(InodeAt(cache.view, inode.sector)) == Header(inode.data) == old(Header(inode.data))
    {
      hide Ready, VolumeOk, Used, Free, FileSize, FileOk, FileNodes, FileIndex, Stuck, SectorsFor, Kept, Stays,
        Contents, EncodeInode, DecodeInode, MapAt, FileWf, TailZero, Owned, First, Wipes, InodeAt, FileSystem.Refused,
        Written;
      ghost var v, s := cache.view, inode.sector as int;
      ghost var d := inode.data;
      HoldsFacts({});
      OwnedUsed(v, freeMap.model, files, {}, s);
      FileWfFacts(v, s);
      ReadyFacts();
      AllKept(v, freeMap.model, files, {});
      if inode.denyWriteCnt > 0 {
        return 0;
      }
      var beyond := EndsBeyond(inode.data, offset + |buffer|);
      ContentsSize(v, s);
      if beyond {
        var ok := Extend(inode, offset + |buffer|);
        if !ok {
          return 0;
        }
      }
      if buffer == [] {
        NothingWritten(Contents(v, s), offset);
        return 0;
      }
      WrittenIs(Contents(v, s), offset, buffer);
      bytesWritten := OverwriteKept(inode, buffer, offset, v);
    }

    /** The loop of inode_write_at, on top of an earlier change since image v that kept the other files. */
    method OverwriteKept(inode: Inode, buffer: seq<Byte>, offset: nat, ghost v: View) returns (bytesWritten: nat)
      requires Valid() && IsOpen(inode)
      requires offset + |buffer| <= inode.data.length
      requires forall t :: t in files && t != inode.sector && t != FREE_MAP ==> Kept(v, cache.view, t)
      modifies cache, cache.slots, cache.disk
      ensures Valid() && IsOpen(inode)
      ensures bytesWritten == |buffer|
      ensures |old(Contents(cache.view, inode.sector))| == inode.data.length
      ensures Contents(cache.view, inode.sector) == Splice(old(Contents(cache.view, inode.sector)), offset, buffer)
      ensures AgreeOff(old(cache.view), cache.view, Owned(cache.view, inode.sector))
      ensures Owned(cache.view, inode.sector) == old(Owned(cache.view, inode.sector))
      ensures forall t :: t in files && t != inode.sector && t != FREE_MAP ==> Kept(v, cache.view, t)
    {
      hide Holds, Kept, Contents, InodeAt;
      ghost var w := cache.view;
      bytesWritten := Overwrite(inode, buffer, offset);
      forall t | t in files && t != inode.sector && t != FREE_MAP
        ensures Kept(v, cache.view, t)
      {
        KeptTrans(v, w, cache.view, t);
      }
    }

    // ----- creating and removing files

    /** inode_create on a sector that is marked and loose. It also makes the free-map file itself, while there
        is none. */
    method InodeCreate(sector: SectorNo, length: nat, isDir: bool, ghost loose: set<int>) returns (ok: bool)
      requires Ready()
      requires FREE_MAP in files <==> freeMapFile != null
      requires FREE_MAP in files ==> freeMapFile.data == InodeAt(cache.view, FREE_MAP)
      requires MapOf(cache.view, files, mapNodes) && VolumeOk(cache.view, freeMap.model, files, loose)
      requires sector as int in loose && sector < |cache.view| && (sector as int == FREE_MAP ==> files == {})
      requires length <= MAX_LENGTH
      modifies this`files, cache, cache.slots, cache.disk, freeMap, freeMap.bits
      ensures Ready()
      ensures ok <==> Free(old(freeMap.model)) >= FileSize(SectorsFor(length))
      ensures ok ==>
                && files == old(files) + {sector as int} && sector as int !in old(files)
                && VolumeOk(cache.view, freeMap.model, files, loose - {sector as int})
                && Contents(cache.view, sector) == ZeroBytes(length)
                && InodeAt(cache.view, sector).isDir == isDir && InodeAt(cache.view, sector).magic == INODE_MAGIC
                && sector < |cache.view| && InodeBytes(cache.view[sector], isDir, length)
                && Free(freeMap.model) + FileSize(SectorsFor(length)) == Free(old(freeMap.model))
                && AgreeOff(old(cache.view), cache.view, Owned(cache.view, sector) + mapNodes)
      ensures ok ==> forall t :: t in old(files) && t != FREE_MAP ==> Kept(old(cache.view), cache.view, t)
      ensures ok && FREE_MAP in old(files) ==>
                Stays(old(cache.view), cache.view, FREE_MAP) && MapAt(cache.view, mapNodes)
      ensures !ok ==>
                files == old(files) && Refused(old(cache.view), old(freeMap.model), {}, 0, length)
    {
      hide Ready, VolumeOk, Used, Free, FileSize, Settled, FileOk, FileNodes, FileIndex, Extended, Stuck, SectorsFor,
        Kept, Stays, Contents, EncodeInode, DecodeInode, MapAt, FileWf, TailZero, Owned, EmptyInode, MapOf, First,
        FileGap, InodeBytes;
      ghost var v, bits, s := cache.view, freeMap.model, sector as int;
      ReadyFacts();
      LooseNew(v, bits, files, loose, s);
      LooseMap(v, bits, files, loose, s, mapNodes);
      EmptyFile(v, bits, isDir, length, mapNodes);
      EmptyLength(isDir, length);
      NoSectors();
      SectorsForBounds(length);
      PointersSizeAll(0);
      var d := EmptyInode(isDir, length);
      ok, d := Reserve(d, d.length, 0);
      if ok {
        ghost var w := cache.view;
        ReadyFacts();
        if freeMapFile != null {
          MapFileFacts();
        }
        WriteBlock(sector, EncodeInode(d));
        files := files + {s};
        ReservedExtended(v, bits, EmptyInode(isDir, length), 0, w, freeMap.model, d, SectorsFor(length), d.length,
                         mapNodes);
        ReservedHeader(v, bits, EmptyInode(isDir, length), 0, w, freeMap.model, d, SectorsFor(length), mapNodes);
        EmptyIsDir(isDir, length);
        InodeLayout(d);
        CreatedVolume(v, bits, old(files), loose, s, isDir, length, w, freeMap.model, d, mapNodes);
      }
    }

    /** free_map_allocate for the inode of a new file. */
    method AllocateLoose() returns (ok: bool, sector: SectorNo)
      requires Valid()
      modifies cache, cache.slots, cache.disk, freeMap, freeMap.bits
      ensures ok <==> Free(old(freeMap.model)) > 0
      ensures ok ==> Holds({sector as int}) && sector as int !in files && 0 < sector < |cache.view|
      ensures ok ==> Free(freeMap.model) == Free(old(freeMap.model)) - 1
      ensures ok ==> forall t :: t in files && t != FREE_MAP ==> Kept(old(cache.view), cache.view, t)
      ensures ok ==>
                && sector < |old(freeMap.model)| && !old(freeMap.model[sector])
                && freeMap.model == old(freeMap.model)[sector := true]
      ensures !ok ==> Valid() && cache.view == old(cache.view) && freeMap.model == old(freeMap.model)
      ensures !ok ==> forall t :: t in files && t != FREE_MAP ==> Kept(old(cache.view), cache.view, t)
      ensures First(cache.view) == First(old(cache.view))
      ensures AgreeOff(old(cache.view), cache.view, mapNodes)
    {
      hide Ready, VolumeOk, Used, Free, FileOk, FileNodes, Stays, Kept, MapAt, Taken, Owned;
      ghost var v, bits := cache.view, freeMap.model;
      HoldsFacts({});
      ok, sector := Allocate();
      ReadyFacts();
      MapFileFacts();
      if ok {
        TakenFree(bits, sector, freeMap.model);
        TakenCount(bits, sector, freeMap.model);
        TakenVolume(v, bits, files, sector, cache.view, freeMap.model, mapNodes);
        LooseNew(cache.view, freeMap.model, files, {sector as int}, sector);
        StaysFacts(v, cache.view, FREE_MAP);
      } else {
        AllKept(v, bits, files, {});
      }
    }

    /** After inode_create failed and the inode's sector was given back: in order exactly if nothing could be taken. */
    lemma GivenBack(v: View, bits: seq<bool>, x: int, length: nat, w: View, bits1: seq<bool>)
      requires Ready() && freeMapFile != null && freeMapFile.sector == FREE_MAP && FREE_MAP in files
      requires VolumeOk(v, bits, files, {x}) && MapAt(v, mapNodes) && freeMapFile.data == InodeAt(v, FREE_MAP)
      requires Free(bits1) == 0 && 0 <= x < |bits1| == |bits| && bits1[x] && freeMap.model == bits1[x := false]
      requires Free(bits) == 0 ==> w == v && bits1 == bits
      requires AgreeOff(w, cache.view, mapNodes)
      requires forall t :: t in files && t != FREE_MAP ==> Kept(v, cache.view, t)
      ensures Valid() <==> Free(bits) == 0
    {
      hide Ready, VolumeOk, Used, Free, FileOk, FileNodes, Kept, MapAt, InodeAt, Stays;
      ClearOne(bits1, x);
      MapFileFacts();
      if Free(bits) == 0 {
        FreedVolume(v, bits, files, x, cache.view, freeMap.model, mapNodes);
        StaysFacts(v, cache.view, FREE_MAP);
      } else if Valid() {
        forall t | t in files
          ensures InodeAt(cache.view, t) == InodeAt(v, t)
        {
          if t != FREE_MAP {
            KeptStays(v, cache.view, t);
            StaysFacts(v, cache.view, t);
          }
        }
        SameCensus(v, bits, {x}, files, cache.view, freeMap.model, {});
      }
    }

    /** The rest of filesys_create up to the directory entry: create the inode in the sector just allocated,
        and give that sector back if it fails. */
    method CreateIn(sector: SectorNo, length: nat, isDir: bool) returns (ok: bool)
      requires Holds({sector as int}) && sector as int !in files && 0 < sector < |cache.view|
      requires length <= MAX_LENGTH
      modifies this`files, cache, cache.slots, cache.disk, freeMap, freeMap.bits
      ensures Ready()
      ensures ok <==> Free(old(freeMap.model)) >= FileSize(SectorsFor(length))
      ensures ok ==>
                && Valid() && files == old(files) + {sector as int}
                && Contents(cache.view, sector) == ZeroBytes(length)
                && InodeAt(cache.view, sector).isDir == isDir && InodeAt(cache.view, sector).magic == INODE_MAGIC
                && sector < |cache.view| && InodeBytes(cache.view[sector], isDir, length)
                && Free(freeMap.model) + FileSize(SectorsFor(length)) == Free(old(freeMap.model))
                && AgreeOff(old(cache.view), cache.view, Owned(cache.view, sector) + mapNodes)
      ensures !ok ==> files == old(files)
      ensures Valid() <==> ok || Free(old(freeMap.model)) == 0
      ensures !ok && Valid() ==> freeMap.model == old(freeMap.model)[sector := false]
      ensures !ok ==> First(cache.view) == if Wipes(old(freeMap.model), 0, length)
                                           then Zeros() else First(old(cache.view))
      ensures forall t :: t in old(files) && t != FREE_MAP ==> Kept(old(cache.view), cache.view, t)
    {
      hide Ready, VolumeOk, Used, Free, FileSize, FileOk, FileNodes, Stays, Kept, MapAt, Stuck, SectorsFor, Contents,
        Owned, First, Wipes, InodeAt, Refused, InodeBytes;
      ghost var v, bits, x := cache.view, freeMap.model, sector as int;
      HoldsFacts({x});
      LooseMap(v, bits, files, {x}, x, mapNodes);
      LooseNew(v, bits, files, {x}, x);
      ok := InodeCreate(sector, length, isDir, {x});
      if ok {
        assert {x} - {x} == {};
        StaysFacts(v, cache.view, FREE_MAP);
      } else {
        ghost var w, bits1 := cache.view, freeMap.model;
        RefusedFacts(v, bits, {}, 0, length);
        FullRefused(bits, length);
        StuckMarked(v, bits, {}, w, bits1, mapNodes, x);
        forall t | t in files && t != FREE_MAP
          ensures Kept(v, w, t)
        {
          StuckKept(v, bits, files, {x}, x, t, {}, w, freeMap.model, mapNodes);
        }
        ReadyFacts();
        Release(sector);
        FirstOff(w, cache.view, mapNodes);
        forall t | t in files && t != FREE_MAP
          ensures Kept(v, cache.view, t)
        {
          KeptPast(v, bits, files, {x}, t, w, cache.view, mapNodes);
        }
        GivenBack(v, bits, x, length, w, bits1);
      }
    }

    /** filesys_create without the directory entry. It succeeds exactly if there is room for the inode, its
        data and its index blocks; it never disturbs another file. */
    method CreateFile(length: nat, isDir: bool) returns (ok: bool, sector: SectorNo)
      requires Valid()
      requires length <= MAX_LENGTH
      modifies this`files, cache, cache.slots, cache.disk, freeMap, freeMap.bits
      ensures ok <==> Free(old(freeMap.model)) >= 1 + FileSize(SectorsFor(length))
      ensures ok ==>
                && Valid() && files == old(files) + {sector as int} && sector as int !in old(files)
                && Contents(cache.view, sector) == ZeroBytes(length)
                && InodeAt(cache.view, sector).isDir == isDir && InodeAt(cache.view, sector).magic == INODE_MAGIC
                && sector < |cache.view| && InodeBytes(cache.view[sector], isDir, length)
                && Free(freeMap.model) + 1 + FileSize(SectorsFor(length)) == Free(old(freeMap.model))
                && AgreeOff(old(cache.view), cache.view, Owned(cache.view, sector) + mapNodes)
      ensures !ok ==> files == old(files)
      ensures Valid() <==> ok || Free(old(freeMap.model)) <= 1
      ensures !ok && Valid() ==> freeMap.model == old(freeMap.model)
      ensures !ok ==> First(cache.view) == if Free(old(freeMap.model)) > 0
                                              && FileGap(Free(old(freeMap.model)) - 1, 0, SectorsFor(length))
                                           then Zeros() else First(old(cache.view))
      ensures forall t :: t in old(files) && t != FREE_MAP ==> Kept(old(cache.view), cache.view, t)
    {
      hide Ready, VolumeOk, Free, FileSize, Kept, SectorsFor, Contents, Holds, First, FileGap, InodeBytes;
      ghost var v := cache.view;
      NoSectors();
      ok, sector := AllocateLoose();
      if ok {
        ghost var w := cache.view;
        ok := CreateIn(sector, length, isDir);
        forall t | t in old(files) && t != FREE_MAP
          ensures Kept(v, cache.view, t)
        {
          KeptTrans(v, w, cache.view, t);
        }
      }
    }

    /** inode_open for a file that is not open yet: the list of open inodes is empty of it. */
    method Open(sector: SectorNo) returns (inode: Inode)
      requires Valid() && sector as int in files && sector as int != FREE_MAP
      modifies cache`clock, cache`home, cache.slots, cache.disk
      ensures Valid() && fresh(inode) && IsOpen(inode)
      ensures inode.sector == sector && inode.denyWriteCnt == 0 && !inode.removed
    {
      hide Ready, VolumeOk, FileOk, FileNodes, DecodeInode, Owned;
      HoldsFacts({});
      OwnedUsed(cache.view, freeMap.model, files, {}, sector);
      var block := ReadBlock(sector);
      inode := new Inode(sector, DecodeInode(block));
    }

    /** inode_deny_write, by the one opener. */
    method DenyWrite(inode: Inode)
      requires Valid() && IsOpen(inode) && inode.denyWriteCnt == 0
      modifies inode`denyWriteCnt
      ensures Valid() && IsOpen(inode) && inode.denyWriteCnt == 1
    {
      hide FileOk, FileNodes, VolumeOk, ImageModel, Bytes, InodeAt;
      inode.denyWriteCnt := inode.denyWriteCnt + 1;
    }

    /** inode_allow_write */
    method AllowWrite(inode: Inode)
      requires Valid() && IsOpen(inode) && inode.denyWriteCnt == 1
      modifies inode`denyWriteCnt
      ensures Valid() && IsOpen(inode) && inode.denyWriteCnt == 0
    {
      hide FileOk, FileNodes, VolumeOk, ImageModel, Bytes, InodeAt;
      inode.denyWriteCnt := inode.denyWriteCnt - 1;
    }

    lemma OpenLength(inode: Inode)
      requires Valid() && IsOpen(inode)
      ensures |Contents(cache.view, inode.sector)| == inode.data.length
    {
      OwnedUsed(cache.view, freeMap.model, files, {}, inode.sector);
      FileWfFacts(cache.view, inode.sector);
      ContentsSize(cache.view, inode.sector);
    }

    /** inode_read_at on an open file. */
    method Read(inode: Inode, size: int, offset: nat) returns (buffer: seq<Byte>)
      requires Valid() && IsOpen(inode)
      modifies cache`clock, cache`home, cache.slots, cache.disk
      ensures Valid() && IsOpen(inode)
      ensures buffer == Slice(Contents(cache.view, inode.sector), offset, size)
    {
      hide VolumeOk, FileOk, FileNodes, DecodeInode, Owned, Slice, Bytes, Raw, BufferCache.Valid, Bitmap.Valid,
        ImageModel, Used, SectorsFor;
      OwnedUsed(cache.view, freeMap.model, files, {}, inode.sector);
      FileWfFacts(cache.view, inode.sector);
      buffer := ReadAt(inode.data, size, offset);
    }

    /** inode_remove and then the last inode_close: the inode's sector and every block go back to the free map,
        each exactly once, and the other files are kept. */
    method Remove(inode: Inode)
      requires Valid() && IsOpen(inode)
      modifies this`files, inode`removed, cache, cache.slots, cache.disk, freeMap, freeMap.bits
      ensures Valid() && files == old(files) - {inode.sector as int} && inode.removed
      ensures Used(freeMap.model) == Used(old(freeMap.model)) - Owned(old(cache.view), inode.sector)
      ensures Free(freeMap.model) == Free(old(freeMap.model)) + 1 + FileSize(SectorsFor(inode.data.length))
      ensures forall t :: t in files && t != FREE_MAP ==> Kept(old(cache.view), cache.view, t)
      ensures AgreeOff(old(cache.view), cache.view, mapNodes)
    {
      hide Ready, VolumeOk, Used, Free, FileSize, FileOk, FileNodes, Stays, Kept, MapAt, SectorsFor, Owned, FileWf,
        Released, DecodeInode;
      inode.removed := true;
      ghost var v, bits, s := cache.view, freeMap.model, inode.sector as int;
      HoldsFacts({});
      OwnedUsed(v, bits, files, {}, s);
      FileWfFacts(v, s);
      OwnedOf(v, s);
      FileSettled(v, bits, files, {}, s, mapNodes);
      SettledFacts(v, bits, InodeAt(v, s), CountAt(v, s), mapNodes);
      UsedBit(bits, s);
      ReadyFacts();
      Release(inode.sector);
      ghost var w, bits1 := cache.view, freeMap.model;
      ClearOne(bits, s);
      AfterRelease(v, InodeAt(v, s), CountAt(v, s), w, mapNodes);
      var ok := Deallocate(inode.data);
      MapFileFacts();
      ReleasedVolume(v, bits, s, w, bits1, cache.view, freeMap.model, mapNodes);
      RemovedVolume(v, bits, files, s, cache.view, freeMap.model, mapNodes);
      StaysFacts(v, cache.view, FREE_MAP);
      files := files - {s};
    }

    /** get_inode_data_sectors: the nested walk lists the same sectors, in the same order, as looking up each
        index by division and remainder, and no sector twice. */
    method DataSectors(d: InodeDisk) returns (sectors: seq<SectorNo>)
      requires cache.Valid() && d.Fits() && FileOk(cache.view, d, SectorsFor(d.length))
      modifies cache`clock, cache`home, cache.slots, cache.disk
      ensures cache.Valid()
      ensures |sectors| == SectorsFor(d.length)
      ensures forall i :: 0 <= i < |sectors| ==> sectors[i] == FileLeaf(cache.view, d, |sectors|, i)
      ensures forall i, j :: 0 <= i < j < |sectors| ==> sectors[i] != sectors[j]
    {
      assert SectorsFor(d.length) <= MAX_SECTORS && Listed(cache.view, d, SectorsFor(d.length), []);
      hide FileOk, FileLeaf, DecodeIndex, SectorsFor, BufferCache.Valid, Listed;
      ghost var n := SectorsFor(d.length);
      var numSectors := SectorsFor(d.length);
      sectors := [];
      var l := Min(numSectors, DIRECT_BLOCKS);
      for i := 0 to l
        invariant cache.Valid() && |sectors| == i
        invariant Listed(cache.view, d, n, sectors)
      {
        DirectNext(cache.view, d, n, sectors);
        sectors := sectors + [d.direct[i]];
      }
      numSectors := numSectors - l;
      l := Min(numSectors, PTRS);
      if l > 0 {
        sectors := IndirectSectors(d, l, sectors, n);
        numSectors := numSectors - l;
      }
      l := Min(numSectors, PTRS * PTRS);
      if l > 0 {
        sectors := DoublySectors(d, l, sectors);
        numSectors := numSectors - l;
      }
      assert numSectors == 0;
      ListedAll(cache.view, d, n, sectors);
    }

    /** The indirect part of get_inode_data_sectors. */
    method IndirectSectors(d: InodeDisk, l: nat, sectors0: seq<SectorNo>, ghost n: nat) returns (sectors: seq<SectorNo>)
      requires cache.Valid() && FileOk(cache.view, d, n) && 0 < l <= PTRS && 123 + l <= n
      requires |sectors0| == 123 && Listed(cache.view, d, n, sectors0)
      modifies cache`clock, cache`home, cache.slots, cache.disk
      ensures cache.Valid()
      ensures |sectors| == 123 + l && Listed(cache.view, d, n, sectors)
    {
      hide FileOk, FileLeaf, DecodeIndex, BufferCache.Valid, Listed;
      PointerCases(cache.view, d, n, 123);
      sectors := sectors0;
      var block := cache.Read(d.indirect);
      for i := 0 to l
        invariant cache.Valid() && |sectors| == 123 + i
        invariant Listed(cache.view, d, n, sectors)
      {
        PointerCases(cache.view, d, n, 123 + i);
        ListedNext(cache.view, d, n, sectors, DecodeIndex(block)[i]);
        sectors := sectors + [DecodeIndex(block)[i]];
      }
    }

    /** The doubly indirect part of get_inode_data_sectors. */
    method DoublySectors(d: InodeDisk, l: nat, sectors0: seq<SectorNo>) returns (sectors: seq<SectorNo>)
      requires cache.Valid() && FileOk(cache.view, d, 251 + l) && 0 < l <= PTRS * PTRS
      requires |sectors0| == 251 && Listed(cache.view, d, 251 + l, sectors0)
      modifies cache`clock, cache`home, cache.slots, cache.disk
      ensures cache.Valid()
      ensures |sectors| == 251 + l && Listed(cache.view, d, 251 + l, sectors)
    {
      hide FileOk, FileLeaf, DecodeIndex, BufferCache.Valid, Listed;
      ghost var n := 251 + l;
      PointerCases(cache.view, d, n, 251);
      sectors := sectors0;
      var block := cache.Read(d.doubly);
      var l2 := (l + PTRS - 1) / PTRS;
      var left := l;
      for i := 0 to l2
        invariant cache.Valid()
        invariant left == l - Min(l, 128 * i)
        invariant |sectors| == 251 + Min(l, 128 * i)
        invariant Listed(cache.view, d, n, sectors)
      {
        var subsize := Min(left, PTRS);
        PointerCases(cache.view, d, n, 251 + 128 * i);
        var block2 := cache.Read(DecodeIndex(block)[i]);
        for i2 := 0 to subsize
          invariant cache.Valid() && |sectors| == 251 + 128 * i + i2
          invariant Listed(cache.view, d, n, sectors)
        {
          PointerCases(cache.view, d, n, 251 + 128 * i + i2);
          ListedNext(cache.view, d, n, sectors, DecodeIndex(block2)[i2]);
          sectors := sectors + [DecodeIndex(block2)[i2]];
        }
        left := left - subsize;
      }
    }

    // ----- the free map's own file

    /** free_map_create: the free-map file is created with no file to write the free map to yet, then opened,
        and then the free map is written to it. Sector 1 stays set aside for the root directory. Where the result
        is false the source ends the program. */
    method FreeMapCreate() returns (ok: bool)
      requires Machine() && freeMapFile == null && mapNodes == {} && files == {}
      requires Used(freeMap.model) == {0, 1}
      requires 8 * ElemCnt(freeMap.bitCnt) <= MAX_LENGTH
      modifies this`freeMapFile, this`mapNodes, this`files, cache, cache.slots, cache.disk, freeMap, freeMap.bits
      ensures ok <==> Free(old(freeMap.model)) >= FileSize(SectorsFor(8 * ElemCnt(freeMap.bitCnt)))
      ensures ok ==>
                && Holds({1}) && files == {FREE_MAP} && fresh(freeMapFile)
                && !freeMapFile.data.isDir
                && Free(freeMap.model) + FileSize(SectorsFor(8 * ElemCnt(freeMap.bitCnt))) == Free(old(freeMap.model))
      ensures !ok ==> freeMapFile == null
    {
      hide VolumeOk, Used, Free, FileSize, FileOk, FileNodes, Stays, Kept, SectorsFor, Owned, FileWf, DecodeInode,
        Contents, Bytes, ImageModel, BufferCache.Valid, Bitmap.Valid;
      FreshVolume(cache.view, freeMap.model);
      var length := 8 * ElemCnt(freeMap.bitCnt);
      ok := InodeCreate(FREE_MAP, length, false, {0, 1});
      if !ok {
        return;
      }
      assert {0, 1} - {0} == {1} && files == {FREE_MAP};
      ghost var v, bits := cache.view, freeMap.model;
      OwnedUsed(v, bits, files, {1}, FREE_MAP);
      FileWfFacts(v, FREE_MAP);
      ContentsSize(v, FREE_MAP);
      OwnedOf(v, FREE_MAP);
      var block := cache.Read(FREE_MAP);
      freeMapFile := new Inode(FREE_MAP, DecodeInode(block));
      mapNodes := FileNodes(v, freeMapFile.data, SectorsFor(freeMapFile.data.length));
      ok := BitmapWrite();
      MapFileFacts();
      MapWritten(v, bits, {1}, cache.view, mapNodes);
    }

    /** The device holds a volume with this free map and these files, and the free-map file is not open. */
    ghost predicate Closed(bits: seq<bool>, fs: set<int>)
      reads `freeMapFile, cache, cache.slots, cache.disk, freeMap, freeMap.bits
    {
      && Machine() && freeMapFile == null
      && FREE_MAP in fs && VolumeOk(cache.view, bits, fs, {})
      && |bits| == freeMap.bitCnt
      && InodeAt(cache.view, FREE_MAP).length == 8 * ElemCnt(freeMap.bitCnt)
      && ImageModel(Contents(cache.view, FREE_MAP), freeMap.bitCnt) == bits
    }

    /** free_map_close */
    method FreeMapClose()
      requires Valid()
      modifies this`freeMapFile, this`mapNodes
      ensures Closed(freeMap.model, files) && mapNodes == {}
    {
      hide VolumeOk, ImageModel, Contents, InodeAt, Bitmap.Valid, BufferCache.Valid;
      RemountFacts();
      freeMapFile := null;
      mapNodes := {};
    }

    /** free_map_open on a device that holds a volume: the free map is read back from its file. */
    method FreeMapOpen(ghost bits: seq<bool>, ghost fs: set<int>)
      requires Closed(bits, fs)
      modifies this`freeMapFile, this`mapNodes, this`files, cache`clock, cache`home, cache.slots, cache.disk,
        freeMap, freeMap.bits
      ensures Valid() && files == fs && freeMap.model == bits && fresh(freeMapFile)
    {
      hide VolumeOk, FileOk, FileNodes, SectorsFor, Owned, DecodeInode, Bytes, ImageModel, BufferCache.Valid,
        Bitmap.Valid, Raw, Stands, Slice;
      ghost var v := cache.view;
      OwnedUsed(v, bits, fs, {}, FREE_MAP);
      FileWfFacts(v, FREE_MAP);
      OwnedOf(v, FREE_MAP);
      UsedBit(bits, FREE_MAP);
      BitmapSize();
      var block := cache.Read(FREE_MAP);
      freeMapFile := new Inode(FREE_MAP, DecodeInode(block));
      mapNodes := FileNodes(v, freeMapFile.data, SectorsFor(freeMapFile.data.length));
      files := fs;
      var size := 8 * ElemCnt(freeMap.bitCnt);
      var image := ReadAt(freeMapFile.data, size, 0);
      WholeSlice(Bytes(v, freeMapFile.data));
      freeMap.Load(image);
      MapIsAt(v, mapNodes);
    }

    lemma BitmapSize()
      requires freeMap.Valid()
      ensures |freeMap.model| == freeMap.bitCnt
    {
    }
  }

  /** filesys_init without formatting, on a device that holds a volume. */
  method Mount(device: array<Sector>, ghost image: View, ghost bits: seq<bool>, ghost files: set<int>)
    returns (fs: FileSystem)
    requires 3 <= device.Length < 0x1_0000_0000 && |bits| == device.Length - 1
    requires device[..] == image
    requires FREE_MAP in files && VolumeOk(image, bits, files, {})
    requires InodeAt(image, FREE_MAP).length == 8 * ElemCnt(|bits|)
    requires ImageModel(Contents(image, FREE_MAP), |bits|) == bits
    modifies device
    ensures fs.Valid() && fs.cache.disk == device
    ensures fresh(fs) && fresh(fs.cache) && fresh(fs.cache.slots) && fresh(fs.freeMap) && fresh(fs.freeMap.bits)
    ensures fs.cache.view == image && fs.freeMap.model == bits && fs.files == files
  {
    hide VolumeOk, Used, ImageModel, Contents, InodeAt, Bitmap.Valid, BufferCache.Valid, FileSystem.Holds;
    fs := new FileSystem(device);
    fs.MachineSize();
    fs.FreeMapOpen(bits, files);
  }

  /** filesys_done and then filesys_init on the same device without formatting: nothing is lost. */
  method Remount(fs: FileSystem) returns (fs2: FileSystem)
    requires fs.Valid()
    modifies fs.cache.slots, fs.cache.disk
    ensures fs2.Valid() && fs2.cache.disk == fs.cache.disk
    ensures fresh(fs2) && fresh(fs2.cache) && fresh(fs2.cache.slots) && fresh(fs2.freeMap) && fresh(fs2.freeMap.bits)
    ensures fs2.cache.view == old(fs.cache.view) && fs2.freeMap.model == old(fs.freeMap.model)
      && fs2.files == old(fs.files)
  {
    ghost var image, bits, files := fs.cache.view, fs.freeMap.model, fs.files;
    hide VolumeOk, ImageModel, Contents, InodeAt, Bitmap.Valid, BufferCache.Valid, FileSystem.Valid, FileSystem.Ready,
      FileSystem.Machine;
    fs.RemountFacts();
    fs.cache.Close();
    fs2 := Mount(fs.cache.disk, image, bits, files);
  }
}
