/** Runs from a blank device to each state in which a promise of a3/fs does not hold. */
module Witnesses {
  import opened Sectors
  import opened BlockTree
  import opened DiskFormat
  import opened Bitmaps
  import opened Accounting
  import opened Volumes
  import opened FileSystems
  import opened DirectoryFormat
  import opened Directories
  import opened Filesys

  /** What formatting costs on a device of at most 4097 sectors. */
  lemma FormatPrice(bitCnt: nat)
    requires 0 < bitCnt <= 4096
    ensures 8 * ElemCnt(bitCnt) <= 512
    ensures FileSize(SectorsFor(8 * ElemCnt(bitCnt))) == 1 && FileSize(SectorsFor(TableBytes(ROOT_ENTRIES))) == 71
    ensures TableBytes(ROOT_ENTRIES) == 36000
  {
  }

  /** A formatted device of `size` sectors: 75 of them are taken. */
  method Formatted(size: nat) returns (fs: FileSystem)
    requires 75 <= size <= 4097
    ensures fresh(fs) && fresh(fs.cache) && fresh(fs.cache.slots) && fresh(fs.cache.disk)
    ensures fresh(fs.freeMap) && fresh(fs.freeMap.bits)
    ensures Rooted(fs) && Free(fs.freeMap.model) == size - 75 && Names(fs) == map[]
    ensures fs.files == {FREE_MAP, ROOT_DIR as int} && RootLength(fs) == 36000
  {
    hide FileSystem.Valid, VolumeOk, Used, Free, ElemCnt, TableBytes, SectorsFor, FileSize, Contents, Slots, Bindings,
      First;
    var device := new Sector[size](i => Zeros());
    FormatPrice(size - 1);
    var ok;
    ok, fs := InitFormatted(device);
    FileLengths(fs, ROOT_DIR);
  }

  /** A device of 199 sectors, on which a file of 123 full sectors takes the last free one. Writing one byte more fills
      the free-map file's inode with zeros. */
  method WipeRun() returns (fs: FileSystem, inode: Inode, count: nat, ghost before: View, ghost bits: seq<bool>)
    ensures VolumeOk(before, bits, fs.files, {}) && Free(bits) == 0
    ensures inode.sector as int in fs.files && InodeAt(before, inode.sector).length == 123 * 512
    ensures count == 0 && First(fs.cache.view) == Zeros() && !fs.Valid()
  {
    hide FileSystem.Valid, VolumeOk, Free, SectorsFor, FileSize, Contents, First, FileSystem.IsOpen, InodeAt, Wipes,
      Enough, Rooted, FileSystem.IndexBlocks, FileSystem.Ready, Kept;
    fs := Formatted(199);
    RootedValid(fs);
    SomeSizes();
    var ok, sector := fs.CreateFile(123 * 512, false);
    FileLengths(fs, sector);
    inode := fs.Open(sector);
    OpenFacts(fs, inode);
    VolumeFacts(fs);
    before, bits := fs.cache.view, fs.freeMap.model;
    ghost var ix := fs.IndexBlocks(inode);
    WipeExample(bits);
    NoMore(bits, 123 * 512, 123 * 512 + 1);
    count := fs.WriteAt(inode, [7], 123 * 512);
    fs.RefusedFacts(before, bits, ix, 123 * 512, 123 * 512 + 1);
  }

  lemma RootedValid(fs: FileSystem)
    requires Rooted(fs)
    ensures fs.Valid()
  {
  }

  lemma VolumeFacts(fs: FileSystem)
    requires fs.Valid()
    ensures VolumeOk(fs.cache.view, fs.freeMap.model, fs.files, {})
  {
    hide VolumeOk;
  }

  lemma FileLengths(fs: FileSystem, s: SectorNo)
    requires fs.Valid() && s as int in fs.files
    ensures InodeAt(fs.cache.view, s).length == |Contents(fs.cache.view, s)|
  {
    OwnedUsed(fs.cache.view, fs.freeMap.model, fs.files, {}, s);
    ContentsSize(fs.cache.view, s);
  }

  lemma SomeSizes()
    ensures FileSize(SectorsFor(0)) == 0 && FileSize(SectorsFor(1)) == 1 && FileSize(SectorsFor(512)) == 1
    ensures FileSize(SectorsFor(513)) == 2
    ensures FileSize(SectorsFor(123 * 512)) == 123 && FileSize(SectorsFor(123 * 512 + 1)) == 125
  {
  }

  lemma NoMore(bits: seq<bool>, length: nat, end: nat)
    requires length < end && Free(bits) + FileSize(SectorsFor(length)) < FileSize(SectorsFor(end))
    ensures !Enough(bits, length, end)
  {
    hide Free, SectorsFor, FileSize;
  }

  /** A device of 77 sectors with an empty file and one free sector. Writing 513 bytes takes that sector and fails, and
      then no file has it. */
  method LeakRun() returns (fs: FileSystem, inode: Inode, count: nat, ghost before: View, ghost bits: seq<bool>)
    ensures VolumeOk(before, bits, fs.files, {}) && Free(bits) == 1
    ensures inode.sector as int in fs.files && InodeAt(before, inode.sector).length == 0
    ensures count == 0 && Free(fs.freeMap.model) == 0 && !Truncates(0, 513, 0) && !fs.Valid()
  {
    hide FileSystem.Valid, VolumeOk, Free, SectorsFor, FileSize, Contents, First, FileSystem.IsOpen, InodeAt, Wipes,
      Enough, Rooted, FileSystem.IndexBlocks, FileSystem.Ready, Kept, InodeBytes;
    fs := Formatted(77);
    RootedValid(fs);
    SomeSizes();
    var ok, sector := fs.CreateFile(0, false);
    FileLengths(fs, sector);
    inode := fs.Open(sector);
    OpenFacts(fs, inode);
    VolumeFacts(fs);
    before, bits := fs.cache.view, fs.freeMap.model;
    ghost var ix := fs.IndexBlocks(inode);
    NoMore(bits, 0, 513);
    count := fs.WriteAt(inode, seq(513, i => 7), 0);
    fs.RefusedFacts(before, bits, ix, 0, 513);
  }

  /** Writing nothing at the start of a file of one byte. */
  method TruncateRun() returns (fs: FileSystem, inode: Inode, count: nat, ghost before: View, ghost bits: seq<bool>)
    ensures VolumeOk(before, bits, fs.files, {})
    ensures inode.sector as int in fs.files && InodeAt(before, inode.sector).length == 1
    ensures count == 0 && InodeAt(fs.cache.view, inode.sector).length == 0 && !fs.Valid()
  {
    hide FileSystem.Valid, VolumeOk, Free, SectorsFor, FileSize, Contents, First, FileSystem.IsOpen, InodeAt, Wipes,
      Enough, Rooted, FileSystem.IndexBlocks, FileSystem.Ready, Kept;
    fs := Formatted(77);
    RootedValid(fs);
    SomeSizes();
    var ok, sector := fs.CreateFile(1, false);
    FileLengths(fs, sector);
    inode := fs.Open(sector);
    OpenFacts(fs, inode);
    VolumeFacts(fs);
    before, bits := fs.cache.view, fs.freeMap.model;
    count := fs.WriteAt(inode, [], 0);
  }

  /** Creating a file of one sector under a name that is taken. */
  method NameTakenRun() returns (fs: FileSystem, ok: bool, ok2: bool, ghost before: View, ghost bits: seq<bool>)
    ensures ok && VolumeOk(before, bits, fs.files, {}) && Free(bits) == 3
    ensures !ok2 && !fs.Valid()
  {
    hide FileSystem.Valid, VolumeOk, Free, SectorsFor, FileSize, Contents, Slots, Bindings, Rooted, EntryCost, FreeSlot,
      Kept, InodeAt, RefusedBlock, TableBytes;
    var name := [97];
    fs := Formatted(80);
    RootedValid(fs);
    SomeSizes();
    FirstName(fs);
    var sector;
    ok, sector := Create(fs, name, 512);
    RootedValid(fs);
    VolumeFacts(fs);
    before, bits := fs.cache.view, fs.freeMap.model;
    ok2, sector := Create(fs, name, 512);
  }

  /** The first entry of the root directory of a formatted device goes to its second slot. */
  lemma FirstName(fs: FileSystem)
    requires Rooted(fs) && Names(fs) == map[] && RootLength(fs) == 36000
    ensures RootEnd(fs) == 72 && EntryCost(RootLength(fs), RootEnd(fs)) == 0
  {
    hide FileSystem.Valid, Text, Bindings, Slots;
    FileLengths(fs, ROOT_DIR);
    var t := Slots(Contents(fs.cache.view, ROOT_DIR));
    BindingsAre(t, Text(t[1].name));
    assert !Binds(t, 1, Text(t[1].name));
    FreeSlotIs(t, 1);
  }
}
