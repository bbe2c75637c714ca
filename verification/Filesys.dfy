/** Creating a file by name in the root directory (a3/fs/filesys.c), with the directory entry and what is undone. */
module Filesys {
  import opened Sectors
  import opened DiskFormat
  import opened BlockTree
  import opened FileTree
  import opened Accounting
  import opened Gaps
  import opened Reserving
  import opened Volumes
  import opened VolumeSteps
  import opened Census
  import opened FileSystems
  import opened DirectoryFormat
  import opened Directories

  /** The device is in order and has a root directory. */
  ghost predicate Rooted(fs: FileSystem)
    reads fs, fs.cache, fs.cache.slots, fs.cache.disk, fs.freeMap, fs.freeMap.bits, fs.freeMapFile
  {
    fs.Valid() && ROOT_DIR as int in fs.files && DirectoryOk(Contents(fs.cache.view, ROOT_DIR))
  }

  ghost function Names(fs: FileSystem): map<seq<Byte>, SectorNo>
    reads fs.cache
  {
    Bindings(Slots(Contents(fs.cache.view, ROOT_DIR)))
  }

  /** The length of the root directory, and where a new entry in it would end. */
  ghost function RootLength(fs: FileSystem): int
    reads fs.cache
  {
    InodeAt(fs.cache.view, ROOT_DIR).length
  }

  ghost function RootEnd(fs: FileSystem): nat
    reads fs.cache
  {
    ENTRY * FreeSlot(Slots(Contents(fs.cache.view, ROOT_DIR))) + ENTRY
  }

  /** An empty file's only sector is its inode's. */
  lemma EmptyRemoved(v: View, bits: seq<bool>, files: set<int>, s: int, w: View, bits2: seq<bool>, md: set<int>)
    requires VolumeOk(v, bits, files, {}) && s in files && s != FREE_MAP && FREE_MAP in files && MapAt(v, md)
    requires FileSize(CountAt(v, s)) == 0
    requires 0 <= s < |bits| && bits[s] && bits2 == bits[s := false]
    requires AgreeOff(v, w, md)
    requires FileOk(w, InodeAt(v, FREE_MAP), CountAt(v, FREE_MAP))
    requires FileNodes(w, InodeAt(v, FREE_MAP), CountAt(v, FREE_MAP)) == md
    ensures VolumeOk(w, bits2, files - {s}, {})
    ensures Stays(v, w, FREE_MAP)
    ensures forall t :: t in files && t != s && t != FREE_MAP ==> Kept(v, w, t)
  {
    hide Used, FileOk, FileNodes, VolumeOk, Owned, Stays, MapAt, FileSize, InodeAt, CountAt, FileWf, Kept;
    OwnedUsed(v, bits, files, {}, s);
    OwnedCount(v, s);
    OneElement(Owned(v, s), s);
    ClearOne(bits, s);
    RemovedVolume(v, bits, files, s, w, bits2, md);
  }

  lemma OneElement(a: set<int>, x: int)
    requires |a| == 1 && x in a
    ensures a == {x}
  {
    assert |a - {x}| == 0;
  }

  /** The same files on the same sectors: the same free map. */
  lemma SameBits(v: View, bits: seq<bool>, files: set<int>, w: View, bits2: seq<bool>)
    requires VolumeOk(v, bits, files, {}) && VolumeOk(w, bits2, files, {}) && |bits2| == |bits|
    requires forall t :: t in files ==> Owned(w, t) == Owned(v, t)
    ensures bits2 == bits
  {
    hide Used, Owned, FilesOk, AllOwned;
    SameOwned(v, w, files);
    UsedInjective(bits, bits2);
  }

  lemma InodesKept(v: View, bits: seq<bool>, files: set<int>, some: set<int>, u: View, w: View, md: set<int>)
    requires VolumeOk(v, bits, files, {}) && FREE_MAP in files && MapAt(v, md) && AgreeOff(u, w, md) && some <= files
    requires forall t :: t in some && t != FREE_MAP ==> InodeAt(u, t) == InodeAt(v, t)
    ensures forall t :: t in some && t != FREE_MAP ==> InodeAt(w, t) == InodeAt(v, t)
  {
    hide VolumeOk, Owned, DecodeInode, FileNodes, FileWf;
    OwnedOf(v, FREE_MAP);
    forall t | t in some && t != FREE_MAP
      ensures t !in md
    {
      OwnedUsed(v, bits, files, {}, t);
      OwnedApart(v, bits, files, {}, t, FREE_MAP);
    }
  }

  /** The new inode s was given back after its directory entry could not be made. v0 and bits0 are the device and the
      free map before it was created, v1 and bits1 after that, u and ubits after the entry was refused; `kept` says
      whether the refusal left the device as it was. */
  ghost predicate GivenUp(fs: FileSystem, s: int, v0: View, bits0: seq<bool>, v1: View, bits1: seq<bool>,
                          u: View, ubits: seq<bool>, kept: bool)
    reads fs, fs.cache, fs.cache.slots, fs.cache.disk, fs.freeMap, fs.freeMap.bits, fs.freeMapFile
  {
    && fs.Ready() && fs.freeMapFile != null && fs.freeMapFile.sector == FREE_MAP
    && FREE_MAP in fs.files && s !in fs.files
    && VolumeOk(v0, bits0, fs.files, {}) && MapAt(v0, fs.mapNodes)
    && VolumeOk(v1, bits1, fs.files + {s}, {}) && MapAt(v1, fs.mapNodes)
    && fs.freeMapFile.data == InodeAt(v0, FREE_MAP) == InodeAt(v1, FREE_MAP)
    && (forall t :: t in fs.files && t != FREE_MAP ==> Kept(v0, v1, t) && InodeAt(u, t) == InodeAt(v1, t))
    && AgreeOff(u, fs.cache.view, fs.mapNodes)
    && 0 <= s < |ubits| == |bits1| == |bits0| && ubits[s] && fs.freeMap.model == ubits[s := false]
    && Free(bits1) + 1 + FileSize(CountAt(v1, s)) == Free(bits0)
    && (kept ==> u == v1 && ubits == bits1)
    && (!kept ==> Free(ubits) == 0 && (Free(bits1) > 0 || First(u) == Zeros()))
  }

  lemma KeptInode(v: View, w: View, t: int)
    requires Kept(v, w, t)
    ensures InodeAt(w, t) == InodeAt(v, t) && Owned(w, t) == Owned(v, t)
  {
    hide Owned, FileWf, TailZero, Contents;
  }

  /** An empty file that is given up leaves no trace. */
  lemma UndoneWhole(fs: FileSystem, s: int, v0: View, bits0: seq<bool>, v1: View, bits1: seq<bool>,
                    u: View, ubits: seq<bool>)
    requires GivenUp(fs, s, v0, bits0, v1, bits1, u, ubits, true) && FileSize(CountAt(v1, s)) == 0
    ensures fs.Valid() && fs.freeMap.model == bits0
    ensures forall t :: t in fs.files && t != FREE_MAP ==> Kept(v0, fs.cache.view, t)
  {
    hide FileSystem.Ready, VolumeOk, Used, Free, FileOk, FileNodes, Kept, MapAt, InodeAt, Stays, FileSize, Owned;
    var files, w, md := fs.files, fs.cache.view, fs.mapNodes;
    fs.MapFileFacts();
    EmptyRemoved(v1, bits1, files + {s}, s, w, fs.freeMap.model, md);
    StaysFacts(v1, w, FREE_MAP);
    MapIs(v0, md);
    MapIs(v1, md);
    OwnedOf(v0, FREE_MAP);
    OwnedOf(v1, FREE_MAP);
    assert files + {s} - {s} == files;
    forall t | t in files
      ensures t != FREE_MAP ==> Kept(v0, w, t)
      ensures Owned(w, t) == Owned(v0, t)
    {
      if t != FREE_MAP {
        KeptTrans(v0, v1, w, t);
        KeptInode(v0, w, t);
      }
    }
    SameBits(v0, bits0, files, w, fs.freeMap.model);
  }

  /** Anything else that is given up leaves sectors marked that no file owns, or no free-map file. */
  lemma UndoneBroken(fs: FileSystem, s: int, v0: View, bits0: seq<bool>, v1: View, bits1: seq<bool>,
                     u: View, ubits: seq<bool>, kept: bool)
    requires GivenUp(fs, s, v0, bits0, v1, bits1, u, ubits, kept)
    ensures fs.Valid() ==> kept && FileSize(CountAt(v1, s)) == 0
  {
    hide FileSystem.Ready, VolumeOk, Used, Free, FileOk, FileNodes, Kept, MapAt, InodeAt, Stays, FileSize, First;
    var files, w, md := fs.files, fs.cache.view, fs.mapNodes;
    if fs.Valid() {
      InodesKept(v1, bits1, files + {s}, files, u, w, md);
      forall t | t in files
        ensures InodeAt(w, t) == InodeAt(v0, t)
      {
        if t != FREE_MAP {
          KeptInode(v0, v1, t);
        }
      }
      ClearOne(ubits, s);
      SameCensus(v0, bits0, {}, files, w, fs.freeMap.model, {});
      fs.ReadyFacts();
      FirstOff(u, w, md);
      fs.MapLength();
      WipedMap(w);
    }
  }

  /** What an entry that ends at `end` costs a directory of this length. */
  function EntryCost(length: int, end: nat): nat {
    if end <= length then 0
    else
      SectorsForMonotone(length, end);
      FileSizeGrows(SectorsFor(length), SectorsFor(end));
      FileSize(SectorsFor(end)) - FileSize(SectorsFor(length))
  }

  /** The price of creating an empty or non-empty file, and what is left for its entry. */
  lemma Prices(bits0: seq<bool>, bits1: seq<bool>, length: nat, root: int, end: nat)
    requires Free(bits1) + 1 + FileSize(SectorsFor(length)) == Free(bits0)
    ensures Enough(bits1, root, end) <==>
      Free(bits0) >= 1 + FileSize(SectorsFor(length)) + EntryCost(root, end)
    ensures FileSize(SectorsFor(Longer(root, end))) == FileSize(SectorsFor(root)) + EntryCost(root, end)
    ensures FileSize(SectorsFor(length)) == 0 <==> length == 0
    ensures Free(bits1) == 0 ==>
      (Wipes(bits1, root, end) <==> FileGap(FileSize(SectorsFor(root)), SectorsFor(root), SectorsFor(end)))
  {
    hide Free;
  }

  lemma PriceOfNone(length: nat)
    ensures FileSize(SectorsFor(length)) == 0 <==> length == 0
  {
  }

  lemma RootedFacts(fs: FileSystem)
    requires fs.Valid()
    ensures fs.Ready() && fs.freeMapFile != null && fs.freeMapFile.sector == FREE_MAP && FREE_MAP in fs.files
    ensures VolumeOk(fs.cache.view, fs.freeMap.model, fs.files, {}) && MapAt(fs.cache.view, fs.mapNodes)
    ensures fs.freeMapFile.data == InodeAt(fs.cache.view, FREE_MAP)
  {
    hide FileSystem.Ready, VolumeOk;
    fs.HoldsFacts({});
  }

  /** The inode of an ordinary file is marked and apart from the free-map file. */
  lemma InodeFacts(fs: FileSystem, s: SectorNo)
    requires fs.Valid() && s as int in fs.files && s as int != FREE_MAP
    ensures 0 < s < |fs.freeMap.model| && fs.freeMap.model[s] && s as int !in fs.mapNodes
  {
    hide FileSystem.Ready, VolumeOk, Used, Owned, FileWf, FileNodes;
    var v, bits := fs.cache.view, fs.freeMap.model;
    fs.HoldsFacts({});
    OwnedUsed(v, bits, fs.files, {}, s);
    OwnedApart(v, bits, fs.files, {}, s, FREE_MAP);
    MapIs(v, fs.mapNodes);
    OwnedOf(v, FREE_MAP);
    UsedBit(bits, s);
  }

  lemma StillMarked(bits: seq<bool>, bits2: seq<bool>, x: nat)
    requires Keeps(bits, bits2) && x < |bits| && bits[x]
    ensures x < |bits2| == |bits| && bits2[x]
  {
    assert x in Used(bits);
    assert x in Used(bits2);
  }

  lemma NoRoomFacts(fs: FileSystem, dir: Inode, v: View, bits: seq<bool>, length: int, end: nat)
    requires NoRoom(fs, dir, v, bits, length, end)
    ensures fs.Ready() && Free(fs.freeMap.model) == 0 && Keeps(bits, fs.freeMap.model)
    ensures InodeAt(fs.cache.view, dir.sector) == InodeAt(v, dir.sector)
    ensures Contents(fs.cache.view, dir.sector) == Contents(v, dir.sector)
    ensures Wipes(bits, length, end) ==> First(fs.cache.view) == Zeros()
    ensures Free(bits) == 0 && !Wipes(bits, length, end) ==> fs.cache.view == v && fs.freeMap.model == bits
  {
    hide FileSystem.Ready, FileSystem.Valid, FileSystem.IsOpen, DirectoryOk, Contents, Free, Keeps, InodeAt, Wipes,
      First;
  }

  /** The end of filesys_create: dir_add of the new file, and if it fails the inode's sector is given back. v0 and bits0
      are the device and the free map before the file was created. */
  method AddEntry(fs: FileSystem, dir: Inode, name: seq<Byte>, sector: SectorNo, ghost v0: View, ghost bits0: seq<bool>)
    returns (success: bool)
    requires IsDirectory(fs, dir) && 0 !in name && dir.denyWriteCnt == 0 && dir.data.length + ENTRY <= MAX_LENGTH
    requires sector as int in fs.files && sector as int != FREE_MAP && sector != dir.sector
    requires VolumeOk(v0, bits0, fs.files - {sector as int}, {}) && MapAt(v0, fs.mapNodes)
    requires InodeAt(v0, FREE_MAP) == InodeAt(fs.cache.view, FREE_MAP)
    requires forall t :: t in fs.files && t != sector as int && t != FREE_MAP ==> Kept(v0, fs.cache.view, t)
    requires |bits0| == |fs.freeMap.model|
    requires Free(fs.freeMap.model) + 1 + FileSize(CountAt(fs.cache.view, sector)) == Free(bits0)
    modifies fs`files, dir`data, fs.cache, fs.cache.slots, fs.cache.disk, fs.freeMap, fs.freeMap.bits
    ensures success <==>
      && ValidName(name) && name !in old(Bindings(TableOf(fs, dir.sector)))
      && Enough(old(fs.freeMap.model), old(dir.data.length), old(EntryEnd(fs, dir)))
    ensures success ==>
      && IsDirectory(fs, dir) && fs.files == old(fs.files)
      && Bindings(TableOf(fs, dir.sector)) == old(Bindings(TableOf(fs, dir.sector)))[name := sector]
      && dir.data.length == Longer(old(dir.data.length), old(EntryEnd(fs, dir)))
      && Free(fs.freeMap.model) + FileSize(SectorsFor(dir.data.length))
         == old(Free(fs.freeMap.model) + FileSize(SectorsFor(dir.data.length)))
      && forall t :: t in fs.files && t != dir.sector && t != FREE_MAP ==> Kept(old(fs.cache.view), fs.cache.view, t)
    ensures success ==> Header(InodeAt(fs.cache.view, dir.sector)) == old(Header(dir.data))
    ensures !success ==> fs.files == old(fs.files) - {sector as int}
    ensures !success ==>
      var unwanted := !ValidName(name) || name in old(Bindings(TableOf(fs, dir.sector)));
      var full := Free(old(fs.freeMap.model)) == 0
                  && !Wipes(old(fs.freeMap.model), old(dir.data.length), old(EntryEnd(fs, dir)));
      fs.Valid() <==> FileSize(old(CountAt(fs.cache.view, sector))) == 0 && (unwanted || full)
    ensures !success && fs.Valid() ==>
      && fs.freeMap.model == bits0
      && forall t :: t in fs.files && t != FREE_MAP ==> Kept(v0, fs.cache.view, t)
  {
    hide FileSystem.Valid, FileSystem.Ready, FileSystem.IsOpen, VolumeOk, Kept, Contents, Slots, Bindings, Free,
      FileSize, InodeAt, MapAt, Enough, Wipes, First, FreeSlot, SectorsFor, DirectoryOk, NoRoom, Keeps, CountAt,
      FileGap;
    ghost var v1, bits1, s := fs.cache.view, fs.freeMap.model, sector as int;
    ghost var n, end := dir.data.length, EntryEnd(fs, dir);
    ghost var unwanted := !ValidName(name) || name in Bindings(TableOf(fs, dir.sector));
    ghost var kept := unwanted || (Free(bits1) == 0 && !Wipes(bits1, n, end));
    RootedFacts(fs);
    InodeFacts(fs, sector);
    OpenFacts(fs, dir);
    success := DirAdd(fs, dir, name, sector);
    if !success {
      ghost var u, ubits := fs.cache.view, fs.freeMap.model;
      if unwanted {
        RootedFacts(fs);
      } else {
        NoRoomFacts(fs, dir, v1, bits1, n, end);
        StillMarked(bits1, ubits, sector);
      }
      forall t | t in fs.files && t != s && t != FREE_MAP
        ensures InodeAt(u, t) == InodeAt(v1, t)
      {
        if t != dir.sector {
          KeptInode(v1, u, t);
        }
      }
      GiveBack(fs, sector);
      assert fs.files + {s} == old(fs.files);
      Undone(fs, s, v0, bits0, v1, bits1, u, ubits, kept);
    }
  }

  /** Giving up a new file leaves the volume in order exactly when the refusal left it so and the file was empty. */
  lemma Undone(fs: FileSystem, s: int, v0: View, bits0: seq<bool>, v1: View, bits1: seq<bool>,
               u: View, ubits: seq<bool>, kept: bool)
    requires GivenUp(fs, s, v0, bits0, v1, bits1, u, ubits, kept)
    ensures fs.Valid() <==> kept && FileSize(CountAt(v1, s)) == 0
    ensures fs.Valid() ==> fs.freeMap.model == bits0
    ensures fs.Valid() ==> forall t :: t in fs.files && t != FREE_MAP ==> Kept(v0, fs.cache.view, t)
  {
    hide FileSystem.Valid, GivenUp, Kept, FileSize, CountAt;
    UndoneBroken(fs, s, v0, bits0, v1, bits1, u, ubits, kept);
    if kept && FileSize(CountAt(v1, s)) == 0 {
      UndoneWhole(fs, s, v0, bits0, v1, bits1, u, ubits);
    }
  }

  /** filesys_create of a plain file in the root directory. It succeeds exactly when the name is valid and new and
      there are sectors for the inode, its data, its index blocks and the directory's growth. When it fails the
      inode's sector is given back but not what the file holds, so the volume stays in order exactly when there was
      nothing else to give back; then it is as before. */
  method Create(fs: FileSystem, name: seq<Byte>, length: nat) returns (success: bool, sector: SectorNo)
    requires Rooted(fs) && 0 !in name && length <= MAX_LENGTH && RootLength(fs) + ENTRY <= MAX_LENGTH
    modifies fs`files, fs.cache, fs.cache.slots, fs.cache.disk, fs.freeMap, fs.freeMap.bits
    ensures success <==>
      && ValidName(name) && name !in old(Names(fs))
      && old(Free(fs.freeMap.model)) >=
         1 + FileSize(SectorsFor(length)) + EntryCost(old(RootLength(fs)), old(RootEnd(fs)))
    ensures success ==>
      && Rooted(fs) && fs.files == old(fs.files) + {sector as int} && sector as int !in old(fs.files)
      && Names(fs) == old(Names(fs))[name := sector] && Contents(fs.cache.view, sector) == ZeroBytes(length)
      && !InodeAt(fs.cache.view, sector).isDir && RootLength(fs) == Longer(old(RootLength(fs)), old(RootEnd(fs)))
      && Free(fs.freeMap.model) + 1 + FileSize(SectorsFor(length)) + EntryCost(old(RootLength(fs)), old(RootEnd(fs)))
         == old(Free(fs.freeMap.model))
    ensures success ==> Header(InodeAt(fs.cache.view, ROOT_DIR)) == old(Header(InodeAt(fs.cache.view, ROOT_DIR)))
    ensures success ==> forall t :: t in old(fs.files) && t != ROOT_DIR as int && t != FREE_MAP ==>
      Kept(old(fs.cache.view), fs.cache.view, t)
    ensures !success ==> fs.files == old(fs.files)
    ensures fs.Valid() <==>
      || success || old(Free(fs.freeMap.model)) == 0
      || (var unwanted := !ValidName(name) || name in old(Names(fs));
          if old(Free(fs.freeMap.model)) > 1 then length == 0 && unwanted
          else length > 0 || unwanted || !RefusedBlock(old(RootLength(fs)), old(RootEnd(fs))))
    ensures !success && fs.Valid() ==>
      && fs.freeMap.model == old(fs.freeMap.model)
      && forall t :: t in fs.files && t != FREE_MAP ==> Kept(old(fs.cache.view), fs.cache.view, t)
  {
    hide FileSystem.Valid, FileSystem.Ready, FileSystem.IsOpen, VolumeOk, Kept, Contents, Slots, Bindings, Free,
      FileSize, InodeAt, MapAt, Enough, Wipes, First, FreeSlot, GivenUp, SectorsFor, EntryCost, DirectoryOk, FileGap,
      CountAt;
    ghost var v0, bits0 := fs.cache.view, fs.freeMap.model;
    RootedFacts(fs);
    fs.ReadyFacts();
    PriceOfNone(length);
    var dir := fs.Open(ROOT_DIR);
    OpenFacts(fs, dir);
    success, sector := fs.CreateFile(length, false);
    if !success {
      return;
    }
    ghost var v1, bits1 := fs.cache.view, fs.freeMap.model;
    RootedFacts(fs);
    StillOpen(fs, dir, v0);
    Prices(bits0, bits1, length, dir.data.length, RootEnd(fs));
    FileLength(fs, sector);
    fs.ReadyFacts();
    success := AddEntry(fs, dir, name, sector, v0, bits0);
    if success {
      forall t | t in old(fs.files) && t != ROOT_DIR as int && t != FREE_MAP
        ensures Kept(v0, fs.cache.view, t)
      {
        KeptTrans(v0, v1, fs.cache.view, t);
      }
      KeptContents(v1, fs.cache.view, sector);
      KeptInode(v1, fs.cache.view, sector);
      OpenFacts(fs, dir);
    }
  }

  lemma FileLength(fs: FileSystem, s: SectorNo)
    requires fs.Valid() && s as int in fs.files
    ensures CountAt(fs.cache.view, s) == SectorsFor(|Contents(fs.cache.view, s)|)
  {
    OwnedUsed(fs.cache.view, fs.freeMap.model, fs.files, {}, s);
    ContentsSize(fs.cache.view, s);
  }

  lemma KeptContents(v: View, w: View, t: int)
    requires Kept(v, w, t)
    ensures Contents(w, t) == Contents(v, t)
  {
  }

  /** A directory of this length that has to grow on a full device is refused an index block. */
  ghost predicate RefusedBlock(length: int, end: nat) {
    FileGap(FileSize(SectorsFor(length)), SectorsFor(length), SectorsFor(end))
  }

  /** The last step of filesys_create where it failed. */
  method GiveBack(fs: FileSystem, sector: SectorNo)
    requires fs.Ready() && fs.freeMapFile != null && sector as int in fs.files
    requires 0 < sector < |fs.freeMap.model| && fs.freeMap.model[sector] && sector as int !in fs.mapNodes
    modifies fs`files, fs.cache, fs.cache.slots, fs.cache.disk, fs.freeMap, fs.freeMap.bits
    ensures fs.Ready() && fs.files == old(fs.files) - {sector as int}
    ensures AgreeOff(old(fs.cache.view), fs.cache.view, fs.mapNodes)
    ensures fs.freeMap.model == old(fs.freeMap.model)[sector := false]
  {
    hide FileSystem.Ready;
    fs.Release(sector);
    fs.files := fs.files - {sector as int};
  }

  /** A name in the root directory is not bound, or bound to a plain file. */
  ghost predicate PlainName(fs: FileSystem, name: seq<Byte>)
    reads fs, fs.cache
  {
    name in Names(fs) ==>
      var s := Names(fs)[name];
      s as int in fs.files && s as int != FREE_MAP && s != ROOT_DIR && !InodeAt(fs.cache.view, s).isDir
  }

  /** The sectors of the file with this name, its inode's among them. */
  ghost function NamedSize(fs: FileSystem, name: seq<Byte>): nat
    reads fs.cache
  {
    if name in Names(fs) then 1 + FileSize(SectorsFor(|Contents(fs.cache.view, Names(fs)[name])|)) else 0
  }

  lemma PlainIs(fs: FileSystem, dir: Inode, name: seq<Byte>)
    requires fs.Valid() && PlainName(fs, name) && dir.sector == ROOT_DIR
    ensures PlainFile(fs, dir, name) && FreedBy(fs, dir, name) == NamedSize(fs, name)
  {
    hide FileSystem.Valid, Bindings, Slots, Contents, InodeAt, FileSize, CountAt;
    if name in Names(fs) {
      FileLength(fs, Names(fs)[name]);
      CountIs(fs.cache.view, Names(fs)[name]);
    }
  }

  lemma CountIs(v: View, s: int)
    ensures CountAt(v, s) == SectorsFor(InodeAt(v, s).length)
  {
  }

  /** filesys_remove of a plain file in the root directory that nobody has open: exactly its name goes, its inode and
      blocks with it. */
  method Remove(fs: FileSystem, name: seq<Byte>) returns (success: bool)
    requires Rooted(fs) && 0 !in name && PlainName(fs, name)
    modifies fs`files, fs.cache, fs.cache.slots, fs.cache.disk, fs.freeMap, fs.freeMap.bits
    ensures Rooted(fs) && (success <==> name in old(Names(fs)))
    ensures Names(fs) == old(Names(fs)) - {name} && RootLength(fs) == old(RootLength(fs))
    ensures fs.files == old(if name in Names(fs) then fs.files - {Names(fs)[name] as int} else fs.files)
    ensures Free(fs.freeMap.model) == old(Free(fs.freeMap.model) + NamedSize(fs, name))
    ensures !success ==> fs.cache.view == old(fs.cache.view) && fs.freeMap.model == old(fs.freeMap.model)
    ensures Header(InodeAt(fs.cache.view, ROOT_DIR)) == old(Header(InodeAt(fs.cache.view, ROOT_DIR)))
    ensures forall t :: t in fs.files && t != ROOT_DIR as int && t != FREE_MAP ==>
      Kept(old(fs.cache.view), fs.cache.view, t)
  {
    hide FileSystem.Valid, FileSystem.Ready, Kept, Contents, Slots, Bindings, Free, FileSize, InodeAt, DirectoryOk,
      PlainFile, FreedBy, SectorsFor;
    var dir := fs.Open(ROOT_DIR);
    OpenFacts(fs, dir);
    PlainIs(fs, dir, name);
    success := DirRemove(fs, dir, name);
    OpenFacts(fs, dir);
  }
}
