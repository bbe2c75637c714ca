/** Directories as files of fixed-size entries (a3/fs/directory.c), over the inodes of a3/fs/inode.c. */
module Directories {
  import opened Sectors
  import opened DiskFormat
  import opened FileTree
  import opened FileBytes
  import opened Accounting
  import opened Bitmaps
  import opened Reserving
  import opened Volumes
  import opened Census
  import opened FileSystems
  import opened DirectoryFormat

  /** The table of entries of the directory whose inode is in sector s. */
  ghost function TableOf(fs: FileSystem, s: int): seq<DirEntry>
    reads fs, fs.cache
  {
    Slots(Contents(fs.cache.view, s))
  }

  ghost predicate IsDirectory(fs: FileSystem, dir: Inode)
    reads fs, fs.cache, fs.cache.slots, fs.cache.disk, fs.freeMap, fs.freeMap.bits, fs.freeMapFile, dir
  {
    fs.Valid() && fs.IsOpen(dir) && DirectoryOk(Contents(fs.cache.view, dir.sector))
  }

  /** Reading one entry's bytes gives that slot, or falls short at the end of the file. */
  lemma ReadEntry(b: seq<Byte>, i: nat)
    requires |b| % ENTRY == 0
    ensures |Slice(b, ENTRY * i, ENTRY)| == ENTRY <==> i < |Slots(b)|
    ensures i < |Slots(b)| ==> DecodeEntry(Slice(b, ENTRY * i, ENTRY)) == Slots(b)[i]
  {
    hide DecodeEntry;
    var s := Slice(b, ENTRY * i, ENTRY);
    if i < |Slots(b)| {
      assert s == b[ENTRY * i..ENTRY * i + ENTRY];
    }
  }

  /** lookup: the slot, after the parent's, that binds the name. */
  method Lookup(fs: FileSystem, dir: Inode, name: seq<Byte>) returns (found: bool, e: DirEntry, ofs: nat)
    requires IsDirectory(fs, dir) && 0 !in name
    modifies fs.cache`clock, fs.cache`home, fs.cache.slots, fs.cache.disk
    ensures IsDirectory(fs, dir)
    ensures found <==> name in Bindings(TableOf(fs, dir.sector))
    ensures found ==> exists i: nat ::
      ofs == ENTRY * i && Binds(TableOf(fs, dir.sector), i, name) && e == TableOf(fs, dir.sector)[i]
  {
    hide FileSystem.Valid, FileSystem.IsOpen, Contents, Slots, Text, Bindings, Slice, DecodeEntry;
    ghost var b, t := Contents(fs.cache.view, dir.sector), TableOf(fs, dir.sector);
    found, e, ofs := false, DirEntry(0, seq(31, i => 0), false), ENTRY;
    ghost var i: nat := 1;
    ReadEntry(b, i);
    var buffer := fs.Read(dir, ENTRY, ofs);
    while |buffer| == ENTRY
      invariant IsDirectory(fs, dir) && b == Contents(fs.cache.view, dir.sector)
      invariant ofs == ENTRY * i && 1 <= i <= |t| && buffer == Slice(b, ofs, ENTRY)
      invariant forall k: nat :: k < i ==> !Binds(t, k, name)
      decreases |t| - i
    {
      ReadEntry(b, i);
      e := DecodeEntry(buffer);
      if e.inUse && name == Text(e.name) {
        BindingsAre(t, name);
        return true, e, ofs;
      }
      ofs, i := ofs + ENTRY, i + 1;
      ReadEntry(b, i);
      buffer := fs.Read(dir, ENTRY, ofs);
    }
    ReadEntry(b, i);
    BindingsAre(t, name);
  }

  /** dir_is_empty */
  method DirIsEmpty(fs: FileSystem, dir: Inode) returns (empty: bool)
    requires IsDirectory(fs, dir)
    modifies fs.cache`clock, fs.cache`home, fs.cache.slots, fs.cache.disk
    ensures IsDirectory(fs, dir)
    ensures empty <==> Bindings(TableOf(fs, dir.sector)) == map[]
  {
    hide FileSystem.Valid, FileSystem.IsOpen, Contents, Slots, Text, Bindings, Slice, DecodeEntry;
    ghost var b, t := Contents(fs.cache.view, dir.sector), TableOf(fs, dir.sector);
    var ofs := ENTRY;
    ghost var i: nat := 1;
    ReadEntry(b, i);
    var buffer := fs.Read(dir, ENTRY, ofs);
    while |buffer| == ENTRY
      invariant IsDirectory(fs, dir) && b == Contents(fs.cache.view, dir.sector)
      invariant ofs == ENTRY * i && 1 <= i <= |t| && buffer == Slice(b, ofs, ENTRY)
      invariant forall k: nat :: 1 <= k < i ==> !t[k].inUse
      decreases |t| - i
    {
      ReadEntry(b, i);
      if DecodeEntry(buffer).inUse {
        BindingsAre(t, Text(t[i].name));
        assert Binds(t, i, Text(t[i].name));
        return false;
      }
      ofs, i := ofs + ENTRY, i + 1;
      ReadEntry(b, i);
      buffer := fs.Read(dir, ENTRY, ofs);
    }
    ReadEntry(b, i);
    forall name
      ensures name !in Bindings(t)
    {
      BindingsAre(t, name);
    }
    return true;
  }

  /** The first free slot, or the one past the end. */
  function FreeSlot(t: seq<DirEntry>): (i: nat)
    ensures i <= |t| && (i < |t| ==> !t[i].inUse)
    ensures forall k :: 0 <= k < i ==> t[k].inUse
  {
    if t == [] || !t[0].inUse then 0 else 1 + FreeSlot(t[1..])
  }

  lemma {:induction false} FreeSlotIs(t: seq<DirEntry>, i: nat)
    requires i <= |t| && (i < |t| ==> !t[i].inUse) && forall k :: 0 <= k < i ==> t[k].inUse
    ensures FreeSlot(t) == i
  {
    if i > 0 {
      FreeSlotIs(t[1..], i - 1);
    }
  }

  predicate ValidName(name: seq<Byte>) {
    0 < |name| <= NAME_MAX && 0 !in name
  }

  lemma NameFits(name: seq<Byte>, sector: SectorNo)
    requires ValidName(name)
    ensures var e := DirEntry(sector, NamePadded(name), true);
            Named(e) && Text(e.name) == name
  {
    var pad := seq(31 - |name|, i => 0);
    assert NamePadded(name) == name + pad;
    assert pad[0] == 0 && NamePadded(name)[|name|] == 0;
    TextOf(name, pad);
  }

  /** The scan of dir_add for a place to put an entry. */
  method FindFree(fs: FileSystem, dir: Inode) returns (ofs: nat)
    requires IsDirectory(fs, dir)
    modifies fs.cache`clock, fs.cache`home, fs.cache.slots, fs.cache.disk
    ensures IsDirectory(fs, dir)
    ensures ofs == ENTRY * FreeSlot(TableOf(fs, dir.sector))
  {
    hide FileSystem.Valid, FileSystem.IsOpen, Contents, Slots, Slice, DecodeEntry, FreeSlot;
    ghost var b, t := Contents(fs.cache.view, dir.sector), TableOf(fs, dir.sector);
    ofs := 0;
    ghost var i: nat := 0;
    ReadEntry(b, i);
    var buffer := fs.Read(dir, ENTRY, ofs);
    while |buffer| == ENTRY
      invariant IsDirectory(fs, dir) && b == Contents(fs.cache.view, dir.sector)
      invariant ofs == ENTRY * i && i <= |t| && buffer == Slice(b, ofs, ENTRY)
      invariant forall k: nat :: k < i ==> t[k].inUse
      decreases |t| - i
    {
      ReadEntry(b, i);
      if !DecodeEntry(buffer).inUse {
        break;
      }
      ofs, i := ofs + ENTRY, i + 1;
      ReadEntry(b, i);
      buffer := fs.Read(dir, ENTRY, ofs);
    }
    ReadEntry(b, i);
    FreeSlotIs(t, i);
  }

  /** The table after an entry is written to the first free slot of a directory. */
  lemma EntryAdded(b: seq<Byte>, name: seq<Byte>, sector: SectorNo)
    requires DirectoryOk(b) && ValidName(name) && name !in Bindings(Slots(b))
    ensures var t, i, e := Slots(b), FreeSlot(Slots(b)), DirEntry(sector, NamePadded(name), true);
            var c := Written(b, ENTRY * i, EncodeEntry(e));
            && DirectoryOk(c) && Bindings(Slots(c)) == Bindings(t)[name := sector]
            && 1 <= i && Slots(c) == (if i < |t| then t[i := e] else t + [e])
  {
    hide Text, Bindings, EncodeEntry, Written, Slots;
    var t, i, e := Slots(b), FreeSlot(Slots(b)), DirEntry(sector, NamePadded(name), true);
    NameFits(name, sector);
    SlotWritten(b, i, e);
    PutBinding(t, i, e, Slots(Written(b, ENTRY * i, EncodeEntry(e))));
  }

  lemma DirLength(fs: FileSystem, dir: Inode)
    requires IsDirectory(fs, dir)
    ensures ENTRY * |TableOf(fs, dir.sector)| == |Contents(fs.cache.view, dir.sector)| == dir.data.length <= MAX_LENGTH
  {
    OwnedUsed(fs.cache.view, fs.freeMap.model, fs.files, {}, dir.sector);
    FileWfFacts(fs.cache.view, dir.sector);
    ContentsSize(fs.cache.view, dir.sector);
  }

  function Longer(a: int, b: int): int {
    if a < b then b else a
  }

  /** What is left when a directory of this length had to grow to `end` bytes and could not: in order exactly if no
      sector was free and none was due to hold an index block, and then as it was. */
  ghost predicate NoRoom(fs: FileSystem, dir: Inode, v: seq<Sector>, bits: seq<bool>, length: int, end: nat)
    reads fs, fs.cache, fs.cache.slots, fs.cache.disk, fs.freeMap, fs.freeMap.bits, fs.freeMapFile, dir
  {
    && fs.Ready() && Free(fs.freeMap.model) == 0 && Keeps(bits, fs.freeMap.model)
    && InodeAt(fs.cache.view, dir.sector) == InodeAt(v, dir.sector)
    && Contents(fs.cache.view, dir.sector) == Contents(v, dir.sector)
    && First(fs.cache.view) == (if Wipes(bits, length, end) then Zeros() else First(v))
    && (IsDirectory(fs, dir) <==> Free(bits) == 0 && !Wipes(bits, length, end))
    && (fs.Valid() ==> IsDirectory(fs, dir) && fs.cache.view == v && fs.freeMap.model == bits)
  }

  /** Writing entry e over slot i, or past the last one. */
  method PutEntry(fs: FileSystem, dir: Inode, e: DirEntry, ofs: nat, ghost i: nat) returns (ok: bool)
    requires IsDirectory(fs, dir) && dir.denyWriteCnt == 0
    requires ofs == ENTRY * i && i <= |TableOf(fs, dir.sector)| && ofs + ENTRY <= MAX_LENGTH
    modifies dir`data, fs.cache, fs.cache.slots, fs.cache.disk, fs.freeMap, fs.freeMap.bits
    ensures ok <==> Enough(old(fs.freeMap.model), old(dir.data.length), ofs + ENTRY)
    ensures ok ==>
      && fs.Valid() && fs.IsOpen(dir)
      && Contents(fs.cache.view, dir.sector) == Written(old(Contents(fs.cache.view, dir.sector)), ofs, EncodeEntry(e))
      && dir.data.length == Longer(old(dir.data.length), ofs + ENTRY)
      && Free(fs.freeMap.model) + FileSize(SectorsFor(dir.data.length))
         == old(Free(fs.freeMap.model) + FileSize(SectorsFor(dir.data.length)))
    ensures !ok ==> NoRoom(fs, dir, old(fs.cache.view), old(fs.freeMap.model), old(dir.data.length), ofs + ENTRY)
    ensures Header(InodeAt(fs.cache.view, dir.sector)) == old(Header(dir.data))
    ensures forall t :: t in fs.files && t != dir.sector && t != FREE_MAP ==> Kept(old(fs.cache.view), fs.cache.view, t)
  {
    hide FileSystem.Valid, FileSystem.IsOpen, FileSystem.Ready, Contents, Slots, Enough, Kept, FileSize, Free, Written,
      InodeAt, EncodeEntry, Wipes, DirectoryOk, FileSystem.IndexBlocks, First;
    ghost var v, bits, ix, n := fs.cache.view, fs.freeMap.model, fs.IndexBlocks(dir), dir.data.length;
    OpenFacts(fs, dir);
    fs.OpenLength(dir);
    var bytes := fs.WriteAt(dir, EncodeEntry(e), ofs);
    ok := bytes == ENTRY;
    if ok {
      fs.OpenLength(dir);
    } else {
      fs.RefusedFacts(v, bits, ix, n, ofs + ENTRY);
    }
  }

  /** A directory file after an entry for this name is written over slot i or past the last one, and after the entry in
      slot i is marked free. */
  function WithEntry(b: seq<Byte>, i: nat, name: seq<Byte>, sector: SectorNo): seq<Byte> {
    if ValidName(name) then Written(b, ENTRY * i, EncodeEntry(DirEntry(sector, NamePadded(name), true))) else b
  }

  function WithoutEntry(b: seq<Byte>, i: nat): seq<Byte> {
    if i < |Slots(b)| then Written(b, ENTRY * i, EncodeEntry(Slots(b)[i].(inUse := false))) else b
  }

  /** dir_add of a plain file. It succeeds exactly when the name is valid and new and there is room for the entry;
      then it inserts that binding, in the first free slot or at the end, and leaves every other file as it was. */
  method DirAdd(fs: FileSystem, dir: Inode, name: seq<Byte>, sector: SectorNo) returns (success: bool)
    requires IsDirectory(fs, dir) && 0 !in name
    requires dir.denyWriteCnt == 0 && dir.data.length + ENTRY <= MAX_LENGTH
    modifies dir`data, fs.cache, fs.cache.slots, fs.cache.disk, fs.freeMap, fs.freeMap.bits
    ensures success <==>
      && ValidName(name) && name !in old(Bindings(TableOf(fs, dir.sector)))
      && Enough(old(fs.freeMap.model), old(dir.data.length), old(EntryEnd(fs, dir)))
    ensures success ==>
      && IsDirectory(fs, dir)
      && Bindings(TableOf(fs, dir.sector)) == old(Bindings(TableOf(fs, dir.sector)))[name := sector]
      && Contents(fs.cache.view, dir.sector)
         == old(WithEntry(Contents(fs.cache.view, dir.sector), FreeSlot(TableOf(fs, dir.sector)), name, sector))
      && TableOf(fs, dir.sector)[0] == old(TableOf(fs, dir.sector)[0])
      && dir.data.length == Longer(old(dir.data.length), old(EntryEnd(fs, dir)))
      && Free(fs.freeMap.model) + FileSize(SectorsFor(dir.data.length))
         == old(Free(fs.freeMap.model) + FileSize(SectorsFor(dir.data.length)))
    ensures !ValidName(name) || name in old(Bindings(TableOf(fs, dir.sector))) ==>
      IsDirectory(fs, dir) && fs.cache.view == old(fs.cache.view) && fs.freeMap.model == old(fs.freeMap.model)
    ensures !success && ValidName(name) && name !in old(Bindings(TableOf(fs, dir.sector))) ==>
      NoRoom(fs, dir, old(fs.cache.view), old(fs.freeMap.model), old(dir.data.length), old(EntryEnd(fs, dir)))
    ensures Header(InodeAt(fs.cache.view, dir.sector)) == old(Header(dir.data))
    ensures forall t :: t in fs.files && t != dir.sector && t != FREE_MAP ==> Kept(old(fs.cache.view), fs.cache.view, t)
  {
    hide FileSystem.Valid, FileSystem.IsOpen, FileSystem.Ready, Contents, Slots, Text, Bindings, Slice, Enough, Kept,
      FileSize, Free, EncodeEntry, Written, InodeAt, NoRoom, SectorsFor, FreeSlot, DirectoryOk;
    ghost var b, t := Contents(fs.cache.view, dir.sector), TableOf(fs, dir.sector);
    UnchangedKept(fs);
    OpenFacts(fs, dir);
    DirLength(fs, dir);
    if name == [] || |name| > NAME_MAX {
      return false;
    }
    var found, e, at := Lookup(fs, dir, name);
    if found {
      return false;
    }
    var ofs := FindFree(fs, dir);
    EntryAdded(b, name, sector);
    e := DirEntry(sector, NamePadded(name), true);
    success := PutEntry(fs, dir, e, ofs, FreeSlot(t));
  }

  /** Where an entry put in the first free slot of a directory, or at the end, would end. */
  ghost function EntryEnd(fs: FileSystem, dir: Inode): nat
    reads fs, fs.cache
  {
    ENTRY * FreeSlot(TableOf(fs, dir.sector)) + ENTRY
  }

  lemma UnchangedKept(fs: FileSystem)
    requires fs.Valid()
    ensures forall t :: t in fs.files ==> Kept(fs.cache.view, fs.cache.view, t)
  {
    AllKept(fs.cache.view, fs.freeMap.model, fs.files, {});
  }

  /** The table after the entry that binds a name is taken out of use. */
  lemma EntryDropped(b: seq<Byte>, i: nat, name: seq<Byte>)
    requires DirectoryOk(b) && Binds(Slots(b), i, name)
    ensures var e := Slots(b)[i].(inUse := false);
            var c := Written(b, ENTRY * i, EncodeEntry(e));
            && DirectoryOk(c) && Bindings(Slots(c)) == Bindings(Slots(b)) - {name} && Slots(c)[0] == Slots(b)[0]
  {
    hide Text, Bindings, EncodeEntry, Written, Slots;
    SlotWritten(b, i, Slots(b)[i].(inUse := false));
    DropBinding(Slots(b), i, name);
  }

  /** The name is not bound, or bound to the inode of a plain file. */
  ghost predicate PlainFile(fs: FileSystem, dir: Inode, name: seq<Byte>)
    reads fs, fs.cache, dir
  {
    var m := Bindings(TableOf(fs, dir.sector));
    name in m ==>
      && m[name] as int in fs.files && m[name] as int != FREE_MAP && m[name] != dir.sector
      && !InodeAt(fs.cache.view, m[name]).isDir
  }

  lemma StillOpen(fs: FileSystem, inode: Inode, v: seq<Sector>)
    requires inode.sector as int in fs.files && inode.sector as int != FREE_MAP && inode != fs.freeMapFile
    requires inode.data == InodeAt(v, inode.sector) && Kept(v, fs.cache.view, inode.sector)
    ensures fs.IsOpen(inode) && Contents(fs.cache.view, inode.sector) == Contents(v, inode.sector)
  {
  }

  /** The sectors of the file that the name is bound to, its inode's among them. */
  ghost function FreedBy(fs: FileSystem, dir: Inode, name: seq<Byte>): nat
    reads fs, fs.cache
  {
    var m := Bindings(TableOf(fs, dir.sector));
    if name in m then 1 + FileSize(SectorsFor(InodeAt(fs.cache.view, m[name]).length)) else 0
  }

  /** dir_remove of a plain file that nobody else has open: exactly its binding goes, its inode and blocks with it. */
  method DirRemove(fs: FileSystem, dir: Inode, name: seq<Byte>) returns (success: bool)
    requires IsDirectory(fs, dir) && 0 !in name && dir.denyWriteCnt == 0 && PlainFile(fs, dir, name)
    modifies fs`files, dir`data, fs.cache, fs.cache.slots, fs.cache.disk, fs.freeMap, fs.freeMap.bits
    ensures success <==> name in old(Bindings(TableOf(fs, dir.sector)))
    ensures IsDirectory(fs, dir)
    ensures Bindings(TableOf(fs, dir.sector)) == old(Bindings(TableOf(fs, dir.sector))) - {name}
    ensures TableOf(fs, dir.sector)[0] == old(TableOf(fs, dir.sector)[0])
    ensures fs.files == old(if name in Bindings(TableOf(fs, dir.sector))
                            then fs.files - {Bindings(TableOf(fs, dir.sector))[name] as int} else fs.files)
    ensures dir.data.length == old(dir.data.length)
    ensures !success ==> fs.cache.view == old(fs.cache.view) && fs.freeMap.model == old(fs.freeMap.model)
    ensures Free(fs.freeMap.model) == old(Free(fs.freeMap.model) + FreedBy(fs, dir, name))
    ensures Header(InodeAt(fs.cache.view, dir.sector)) == old(Header(dir.data))
    ensures success ==> exists i: nat ::
      && old(Binds(TableOf(fs, dir.sector), i, name))
      && Contents(fs.cache.view, dir.sector) == old(WithoutEntry(Contents(fs.cache.view, dir.sector), i))
    ensures forall t :: t in fs.files && t != dir.sector && t != FREE_MAP ==> Kept(old(fs.cache.view), fs.cache.view, t)
  {
    hide FileSystem.Valid, FileSystem.IsOpen, FileSystem.Ready, Contents, Slots, Text, Bindings, Slice, Enough, Kept,
      FileSize, Free, EncodeEntry, Written, InodeAt, SectorsFor, Used, Owned;
    ghost var v, b, t := fs.cache.view, Contents(fs.cache.view, dir.sector), TableOf(fs, dir.sector);
    UnchangedKept(fs);
    OpenFacts(fs, dir);
    DirLength(fs, dir);
    var found, e, ofs := Lookup(fs, dir, name);
    if !found {
      return false;
    }
    ghost var i: nat :| ofs == ENTRY * i && Binds(t, i, name) && e == t[i];
    BindingsAre(t, name);
    OpenFacts(fs, dir);
    var inode := fs.Open(e.inodeSector);
    OpenFacts(fs, inode);
    StillOpen(fs, dir, v);
    WithinEnough(fs.freeMap.model, dir.data.length, ofs + ENTRY);
    var ok := PutEntry(fs, dir, e.(inUse := false), ofs, i);
    EntryDropped(b, i, name);
    ghost var w := fs.cache.view;
    OpenFacts(fs, dir);
    StillOpen(fs, inode, v);
    fs.Remove(inode);
    StillOpen(fs, dir, w);
    forall s | s in fs.files && s != dir.sector && s != FREE_MAP
      ensures Kept(v, fs.cache.view, s)
    {
      KeptTrans(v, w, fs.cache.view, s);
    }
    return true;
  }

  lemma WithinEnough(bits: seq<bool>, length: int, end: nat)
    requires end <= length
    ensures Enough(bits, length, end)
  {
  }

  lemma OpenFacts(fs: FileSystem, inode: Inode)
    requires fs.IsOpen(inode)
    ensures inode.sector as int in fs.files && inode.sector as int != FREE_MAP && inode != fs.freeMapFile
    ensures inode.data == InodeAt(fs.cache.view, inode.sector)
  {
  }

  /** MAX_FILES_IN_DIRECTORY */
  const ROOT_ENTRIES: nat := 1000
  /** ROOT_DIR_SECTOR */
  const ROOT_DIR: SectorNo := 1

  /** A directory that has only its first entry. */
  ghost predicate Bare(b: seq<Byte>, sector: SectorNo) {
    DirectoryOk(b) && Bindings(Slots(b)) == map[] && Slots(b)[0] == DirEntry(sector, seq(31, i => 0), true)
  }

  lemma ZeroSlots(n: nat, i: nat)
    requires i < n
    ensures |Slots(ZeroBytes(ENTRY * n))| == n && !Slots(ZeroBytes(ENTRY * n))[i].inUse
  {
  }

  lemma FirstEntry(n: nat, sector: SectorNo)
    ensures Bare(Written(ZeroBytes(ENTRY * n), 0, EncodeEntry(DirEntry(sector, seq(31, i => 0), true))), sector)
  {
    hide EncodeEntry, Written, Slots, Bindings, Text;
    var e := DirEntry(sector, seq(31, i => 0), true);
    var b := ZeroBytes(ENTRY * n);
    var c := Written(b, 0, EncodeEntry(e));
    SlotWritten(b, 0, e);
    forall i | 1 <= i < |Slots(c)|
      ensures !Slots(c)[i].inUse
    {
      ZeroSlots(n, i);
    }
    forall name
      ensures name !in Bindings(Slots(c))
    {
      BindingsAre(Slots(c), name);
    }
  }

  /** The bytes that dir_create needs for this many entries. */
  function TableBytes(entryCnt: nat): nat {
    if entryCnt == 0 then ENTRY else ENTRY * entryCnt
  }

  /** The bytes of a directory that has its first entry only. */
  function EmptyTable(sector: SectorNo, entryCnt: nat): seq<Byte> {
    Written(ZeroBytes(ENTRY * entryCnt), 0, EncodeEntry(DirEntry(sector, seq(31, i => 0), true)))
  }

  /** dir_create: a directory that binds no name, if there is room for its table. */
  method DirCreate(fs: FileSystem, sector: SectorNo, entryCnt: nat) returns (ok: bool)
    requires fs.Holds({sector as int}) && sector as int !in fs.files && 0 < sector < |fs.cache.view|
    requires TableBytes(entryCnt) <= MAX_LENGTH
    modifies fs`files, fs.cache, fs.cache.slots, fs.cache.disk, fs.freeMap, fs.freeMap.bits
    ensures ok <==> Free(old(fs.freeMap.model)) >= FileSize(SectorsFor(TableBytes(entryCnt)))
    ensures ok ==>
      && fs.Valid() && fs.files == old(fs.files) + {sector as int}
      && Bare(Contents(fs.cache.view, sector), sector)
      && Contents(fs.cache.view, sector) == EmptyTable(sector, entryCnt)
      && InodeAt(fs.cache.view, sector).isDir
      && |Contents(fs.cache.view, sector)| == TableBytes(entryCnt)
      && Free(fs.freeMap.model) + FileSize(SectorsFor(TableBytes(entryCnt))) == Free(old(fs.freeMap.model))
    ensures fs.Valid() <==> ok || Free(old(fs.freeMap.model)) == 0
    ensures forall t :: t in old(fs.files) && t != FREE_MAP ==> Kept(old(fs.cache.view), fs.cache.view, t)
  {
    hide FileSystem.Holds, FileSystem.IsOpen, FileSystem.Ready, Contents, Kept, FileSize, Free, EncodeEntry, Written,
      InodeAt, Bare, Wipes, InodeBytes;
    ghost var v := fs.cache.view;

    ok := fs.CreateIn(sector, entryCnt * ENTRY, true);
    TableSectors(entryCnt);
    if ok {
      ghost var w := fs.cache.view;
      var dir := fs.Open(sector);
      OpenFacts(fs, dir);
      fs.OpenLength(dir);
      FirstRoom(fs.freeMap.model, dir.data.length);
      FirstEntry(entryCnt, sector);
      var e := DirEntry(sector, seq(31, i => 0), true);
      var bytes := fs.WriteAt(dir, EncodeEntry(e), 0);
      ok := bytes == ENTRY;
      if ok {
        OpenFacts(fs, dir);
        fs.OpenLength(dir);
      }
      forall t | t in old(fs.files) && t != FREE_MAP
        ensures Kept(v, fs.cache.view, t)
      {
        KeptTrans(v, w, fs.cache.view, t);
      }
    }
  }

  lemma TableSectors(entryCnt: nat)
    ensures FileSize(0) == 0 && SectorsFor(0) == 0
    ensures TableBytes(entryCnt) >= ENTRY && TableBytes(entryCnt) >= entryCnt * ENTRY
  {
  }

  /** Only a full device has no room for the first entry, and it refuses that entry a data sector. */
  lemma FirstRoom(bits: seq<bool>, length: nat)
    requires length % ENTRY == 0
    ensures !Enough(bits, length, ENTRY) ==> length == 0 && Free(bits) == 0 && !Wipes(bits, 0, ENTRY)
  {
    hide Free;
    FullRefused(bits, ENTRY);
    hide Wipes;
  }

  /** do_format, on a device that holds nothing: the free-map file, which is closed again, and an empty root directory.
      Where the result is false the source ends the program. */
  method Format(fs: FileSystem) returns (ok: bool)
    requires fs.Machine() && fs.freeMapFile == null && fs.mapNodes == {} && fs.files == {}
    requires Used(fs.freeMap.model) == {0, 1}
    requires 8 * ElemCnt(fs.freeMap.bitCnt) <= MAX_LENGTH
    modifies fs`freeMapFile, fs`mapNodes, fs`files, fs.cache, fs.cache.slots, fs.cache.disk, fs.freeMap, fs.freeMap.bits
    ensures ok <==>
      Free(old(fs.freeMap.model))
      >= FileSize(SectorsFor(8 * ElemCnt(fs.freeMap.bitCnt))) + FileSize(SectorsFor(TableBytes(ROOT_ENTRIES)))
    ensures ok ==>
      && fs.Closed(fs.freeMap.model, {FREE_MAP, ROOT_DIR as int})
      && Bare(Contents(fs.cache.view, ROOT_DIR), ROOT_DIR)
      && InodeAt(fs.cache.view, ROOT_DIR).isDir && !InodeAt(fs.cache.view, FREE_MAP).isDir
      && Contents(fs.cache.view, ROOT_DIR) == EmptyTable(ROOT_DIR, ROOT_ENTRIES)
      && |Contents(fs.cache.view, ROOT_DIR)| == TableBytes(ROOT_ENTRIES)
      && Free(fs.freeMap.model) + FileSize(SectorsFor(8 * ElemCnt(fs.freeMap.bitCnt)))
         + FileSize(SectorsFor(TableBytes(ROOT_ENTRIES))) == Free(old(fs.freeMap.model))
  {
    hide FileSystem.Holds, FileSystem.IsOpen, Contents, Kept, FileSize, Free, Bare, Used, ElemCnt, SectorsFor, InodeAt,
      FileSystem.Ready, VolumeOk, EmptyTable;
    ok := fs.FreeMapCreate();
    if !ok {
      return;
    }
    fs.HoldsSize({1});
    ok := DirCreate(fs, ROOT_DIR, ROOT_ENTRIES);
    if ok {
      assert fs.files == {FREE_MAP, ROOT_DIR as int};
      fs.MapInode();
      fs.FreeMapClose();
    }
  }

  /** filesys_init with formatting, on a device that the largest file can map. */
  method InitFormatted(device: array<Sector>) returns (ok: bool, fs: FileSystem)
    requires 3 <= device.Length < 0x1_0000_0000 && 8 * ElemCnt(device.Length - 1) <= MAX_LENGTH
    modifies device
    ensures fresh(fs) && fresh(fs.cache) && fresh(fs.cache.slots) && fresh(fs.freeMap) && fresh(fs.freeMap.bits)
    ensures fs.cache.disk == device
    ensures ok <==>
      device.Length - 3
      >= FileSize(SectorsFor(8 * ElemCnt(device.Length - 1))) + FileSize(SectorsFor(TableBytes(ROOT_ENTRIES)))
    ensures ok ==>
      && fs.Valid() && fs.files == {FREE_MAP, ROOT_DIR as int} && Bare(Contents(fs.cache.view, ROOT_DIR), ROOT_DIR)
      && InodeAt(fs.cache.view, ROOT_DIR).isDir && !InodeAt(fs.cache.view, FREE_MAP).isDir
      && Contents(fs.cache.view, ROOT_DIR) == EmptyTable(ROOT_DIR, ROOT_ENTRIES)
      && |Contents(fs.cache.view, ROOT_DIR)| == TableBytes(ROOT_ENTRIES)
      && Free(fs.freeMap.model) + FileSize(SectorsFor(8 * ElemCnt(device.Length - 1)))
         + FileSize(SectorsFor(TableBytes(ROOT_ENTRIES))) == device.Length - 3
  {
    hide FileSystem.Holds, FileSystem.Closed, FileSystem.Machine, Contents, FileSize, Free, Bare, Used, ElemCnt,
      SectorsFor, InodeAt, EmptyTable;
    fs := new FileSystem(device);
    fs.MachineSize();
    FreshFree(fs.freeMap.model);
    ok := Format(fs);
    if ok {
      fs.FreeMapOpen(fs.freeMap.model, {FREE_MAP, ROOT_DIR as int});
    }
  }

  lemma FreshFree(bits: seq<bool>)
    requires Used(bits) == {0, 1}
    ensures Free(bits) == |bits| - 2
  {
    UsedCount(bits);
    hide Used, Free;
    assert |{0, 1}| == 2;
  }
}
