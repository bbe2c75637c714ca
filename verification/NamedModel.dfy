/** The device as callers of a3/fs/filesys.c see it, a map from file names to byte sequences, and the proof that whole
    runs of creates, writes, reads, removals and remounts by name behave like that map. */
module NamedModel {
  import opened Sectors
  import opened DiskFormat
  import opened FileTree
  import opened FileBytes
  import opened Accounting
  import opened Bitmaps
  import opened Gaps
  import opened Volumes
  import opened VolumeSteps
  import opened FileSystems
  import opened DirectoryFormat
  import opened Directories
  import opened Filesys
  import Flat = FlatModel

  type Name = seq<Byte>

  /** What the files contain, how many entries the directory has, and how many sectors are free. */
  datatype State = State(files: map<Name, seq<Byte>>, slots: nat, free: nat)

  datatype Op =
    | Create(name: Name, length: nat)
    | Write(name: Name, buffer: seq<Byte>, offset: nat)
    | Read(name: Name, size: int, offset: nat)
    | Remove(name: Name)
    | Remount

  datatype Reply =
    | Failed
    | Wrote(count: nat)
    | Data(bytes: seq<Byte>)
    | Done

  /** Every entry but the parent's is in use, so the directory has to grow for one more. */
  predicate Full(a: State) {
    |a.files| + 1 == a.slots
  }

  function EntryPrice(a: State): nat {
    if Full(a) then EntryCost(ENTRY * a.slots, ENTRY * a.slots + ENTRY) else 0
  }

  /** A name that no new file can have. */
  predicate Unwanted(a: State, name: Name) {
    !ValidName(name) || name in a.files
  }

  predicate Creates(a: State, name: Name, length: nat) {
    !Unwanted(a, name) && a.free >= 1 + Flat.Price(length) + EntryPrice(a)
  }

  /** What a caller may ask for: names are C strings, and no file grows past the largest one. */
  predicate Legal(op: Op, a: State) {
    match op
    case Create(name, length) => 0 !in name && length <= MAX_LENGTH && ENTRY * a.slots + ENTRY <= MAX_LENGTH
    case Write(name, buffer, offset) => 0 !in name && offset + |buffer| <= MAX_LENGTH
    case Read(name, _, _) => 0 !in name
    case Remove(name) => 0 !in name
    case Remount => true
  }

  /** The operation leaves the device in order. */
  ghost predicate Safe(op: Op, a: State) {
    && Legal(op, a)
    && match op {
         case Create(name, length) =>
           || Creates(a, name, length) || a.free == 0
           || if a.free > 1 then length == 0 && Unwanted(a, name)
              else length > 0 || Unwanted(a, name)
                   || !(Full(a) && Flat.BlockRefused(0, ENTRY * a.slots, ENTRY * a.slots + ENTRY))
         case Write(name, buffer, offset) =>
           name in a.files ==>
             var n, end := |a.files[name]|, offset + |buffer|;
             && !Truncates(n, |buffer|, offset)
             && (Flat.Room(a.free, n, end) || (a.free == 0 && !Flat.BlockRefused(0, n, end)))
         case _ => true
       }
  }

  /** The flat meaning of a safe operation: reply and new state are determined. */
  ghost predicate Means(op: Op, reply: Reply, a: State, b: State) {
    match op
    case Create(name, length) =>
      if Creates(a, name, length) then
        && reply == Done
        && b == State(a.files[name := ZeroBytes(length)], if Full(a) then a.slots + 1 else a.slots,
                      a.free - 1 - Flat.Price(length) - EntryPrice(a))
      else
        reply == Failed && b == a
    case Write(name, buffer, offset) =>
      if name !in a.files then reply == Failed && b == a
      else
        var was := a.files[name];
        if Flat.Room(a.free, |was|, offset + |buffer|) then
          && reply == Wrote(|buffer|)
          && b.files == a.files[name := Written(was, offset, buffer)] && b.slots == a.slots
          && b.free + Flat.Price(|Written(was, offset, buffer)|) == a.free + Flat.Price(|was|)
        else
          reply == Wrote(0) && b == a
    case Read(name, size, offset) =>
      b == a && reply == if name in a.files then Data(Slice(a.files[name], offset, size)) else Failed
    case Remove(name) =>
      if name !in a.files then reply == Failed && b == a
      else reply == Done && b == State(a.files - {name}, a.slots, a.free + 1 + Flat.Price(|a.files[name]|))
    case Remount => reply == Done && b == a
  }

  /** A run of the flat model: its states, from the first to the last, one step for each reply. */
  ghost predicate FlatRun(ops: seq<Op>, replies: seq<Reply>, states: seq<State>) {
    && |replies| <= |ops| && |states| == |replies| + 1
    && forall i :: 0 <= i < |replies| ==>
         Safe(ops[i], states[i]) && Means(ops[i], replies[i], states[i], states[i + 1])
  }

  // ----- what the names on a device stand for

  ghost function NamesIn(v: seq<Sector>): map<Name, SectorNo> {
    Bindings(Slots(Contents(v, ROOT_DIR)))
  }

  ghost predicate HasName(m: map<Name, SectorNo>, s: int) {
    exists n :: n in m && m[n] as int == s
  }

  /** Every name is bound to a different file, and every file but the free map's and the root has a name. */
  ghost predicate Bound(m: map<Name, SectorNo>, files: set<int>) {
    && FREE_MAP in files && ROOT_DIR as int in files
    && (forall n :: n in m ==> m[n] as int in files && m[n] as int != FREE_MAP && m[n] != ROOT_DIR)
    && (forall n, n2 :: n in m && n2 in m && m[n] == m[n2] ==> n == n2)
    && (forall s :: s in files && s != FREE_MAP && s != ROOT_DIR as int ==> HasName(m, s))
  }

  /** The names in the root directory are those of all the other files, and it is the only directory. */
  ghost predicate AllNamed(v: seq<Sector>, files: set<int>) {
    && Bound(NamesIn(v), files) && DirectoryOk(Contents(v, ROOT_DIR)) && InodeAt(v, ROOT_DIR).isDir
    && forall n :: n in NamesIn(v) ==> !InodeAt(v, NamesIn(v)[n]).isDir
  }

  lemma BoundMore(m: map<Name, SectorNo>, files: set<int>, s: SectorNo, name: Name)
    requires Bound(m, files) && s as int !in files && name !in m
    ensures Bound(m[name := s], files + {s as int})
  {
    var m2 := m[name := s];
    forall t | t in files + {s as int} && t != FREE_MAP && t != ROOT_DIR as int
      ensures HasName(m2, t)
    {
      if t == s {
        assert m2[name] == s;
      } else {
        var n :| n in m && m[n] as int == t;
        assert n in m2 && m2[n] == m[n];
      }
    }
  }

  lemma BoundLess(m: map<Name, SectorNo>, files: set<int>, name: Name)
    requires Bound(m, files) && name in m
    ensures Bound(m - {name}, files - {m[name] as int})
  {
    var m2 := m - {name};
    forall t | t in files && t != m[name] as int && t != FREE_MAP && t != ROOT_DIR as int
      ensures HasName(m2, t)
    {
      var n :| n in m && m[n] as int == t;
      assert n in m2 && m2[n] == m[n];
    }
  }

  lemma BoundFacts(m: map<Name, SectorNo>, files: set<int>)
    requires Bound(m, files)
    ensures FREE_MAP in files && ROOT_DIR as int in files
  {
  }

  lemma BoundApart(m: map<Name, SectorNo>, files: set<int>, n: Name, n2: Name)
    requires Bound(m, files) && n in m && n2 in m && n != n2
    ensures m[n] != m[n2]
  {
    hide HasName;
  }

  ghost function FilesByName(v: seq<Sector>): (f: map<Name, seq<Byte>>)
    ensures f.Keys == NamesIn(v).Keys
  {
    map n | n in NamesIn(v) :: Contents(v, NamesIn(v)[n])
  }

  /** The device is in order and all its files have names. */
  ghost predicate InOrder(fs: FileSystem)
    reads fs, fs.cache, fs.cache.slots, fs.cache.disk, fs.freeMap, fs.freeMap.bits, fs.freeMapFile
  {
    fs.Valid() && AllNamed(fs.cache.view, fs.files)
  }

  ghost function StateOf(fs: FileSystem): State
    reads fs, fs.cache, fs.freeMap
  {
    State(FilesByName(fs.cache.view), |Slots(Contents(fs.cache.view, ROOT_DIR))|, Free(fs.freeMap.model))
  }

  lemma NameAt(v: seq<Sector>, files: set<int>, name: Name)
    requires AllNamed(v, files) && name in NamesIn(v)
    ensures var s := NamesIn(v)[name];
            && s as int in files && s as int != FREE_MAP && s != ROOT_DIR && !InodeAt(v, s).isDir
            && FilesByName(v)[name] == Contents(v, s)
  {
    hide InodeAt, Contents, Slots, Bindings, DirectoryOk, HasName;
  }

  // ----- the steps

  lemma KeptRoot(v: seq<Sector>, w: seq<Sector>)
    requires Kept(v, w, ROOT_DIR as int)
    ensures NamesIn(w) == NamesIn(v) && Contents(w, ROOT_DIR) == Contents(v, ROOT_DIR)
  {
    hide Contents, Stays, Slots, Bindings;
  }

  /** Nothing but the contents of one named file changed. */
  lemma WroteNamed(v: seq<Sector>, files: set<int>, w: seq<Sector>, name: Name)
    requires AllNamed(v, files) && name in NamesIn(v)
    requires forall t :: t in files && t != NamesIn(v)[name] as int && t != FREE_MAP ==> Kept(v, w, t)
    requires InodeAt(w, NamesIn(v)[name]).isDir == InodeAt(v, NamesIn(v)[name]).isDir
    ensures AllNamed(w, files) && Contents(w, ROOT_DIR) == Contents(v, ROOT_DIR)
    ensures FilesByName(w) == FilesByName(v)[name := Contents(w, NamesIn(v)[name])]
  {
    hide Contents, Stays, Slots, Bindings, InodeAt, Kept, DirectoryOk, NamesIn, Bound;
    var m := NamesIn(v);
    NameAt(v, files, name);
    BoundFacts(m, files);
    KeptRoot(v, w);
    KeptInode(v, w, ROOT_DIR);
    forall n | n in m && n != name
      ensures Contents(w, m[n]) == Contents(v, m[n]) && InodeAt(w, m[n]) == InodeAt(v, m[n])
    {
      NameAt(v, files, n);
      BoundApart(m, files, n, name);
      KeptContents(v, w, m[n]);
      KeptInode(v, w, m[n]);
    }
  }

  lemma SameNamed(v: seq<Sector>, files: set<int>, w: seq<Sector>)
    requires AllNamed(v, files)
    requires forall t :: t in files && t != FREE_MAP ==> Kept(v, w, t)
    ensures AllNamed(w, files) && Contents(w, ROOT_DIR) == Contents(v, ROOT_DIR) && FilesByName(w) == FilesByName(v)
  {
    hide Contents, Stays, Slots, Bindings, InodeAt, Kept, DirectoryOk, NamesIn, Bound;
    var m := NamesIn(v);
    BoundFacts(m, files);
    KeptRoot(v, w);
    KeptInode(v, w, ROOT_DIR);
    forall n | n in m
      ensures Contents(w, m[n]) == Contents(v, m[n]) && InodeAt(w, m[n]) == InodeAt(v, m[n])
    {
      NameAt(v, files, n);
      KeptContents(v, w, m[n]);
      KeptInode(v, w, m[n]);
    }
  }

  /** The named files but s are as they were. */
  lemma OthersNamed(v: seq<Sector>, files: set<int>, w: seq<Sector>, s: int)
    requires AllNamed(v, files)
    requires forall t :: t in files && t != s && t != ROOT_DIR as int && t != FREE_MAP ==> Kept(v, w, t)
    ensures forall n :: n in NamesIn(v) && NamesIn(v)[n] as int != s ==>
              Contents(w, NamesIn(v)[n]) == Contents(v, NamesIn(v)[n])
              && InodeAt(w, NamesIn(v)[n]) == InodeAt(v, NamesIn(v)[n])
  {
    hide Contents, Stays, Slots, Bindings, InodeAt, Kept, DirectoryOk, NamesIn, Bound;
    var m := NamesIn(v);
    forall n | n in m && m[n] as int != s
      ensures Contents(w, m[n]) == Contents(v, m[n]) && InodeAt(w, m[n]) == InodeAt(v, m[n])
    {
      NameAt(v, files, n);
      KeptContents(v, w, m[n]);
      KeptInode(v, w, m[n]);
    }
  }

  /** A new plain file s came to have a name. */
  lemma CreatedNamed(v: seq<Sector>, files: set<int>, w: seq<Sector>, s: SectorNo, name: Name)
    requires AllNamed(v, files) && s as int !in files && name !in NamesIn(v)
    requires NamesIn(w) == NamesIn(v)[name := s] && DirectoryOk(Contents(w, ROOT_DIR))
    requires !InodeAt(w, s).isDir && InodeAt(w, ROOT_DIR).isDir
    requires forall t :: t in files && t != ROOT_DIR as int && t != FREE_MAP ==> Kept(v, w, t)
    ensures AllNamed(w, files + {s as int})
    ensures FilesByName(w) == FilesByName(v)[name := Contents(w, s)]
  {
    hide Contents, Stays, Slots, Bindings, InodeAt, Kept, DirectoryOk, NamesIn, FilesByName, Bound;
    OthersNamed(v, files, w, s);
    BoundMore(NamesIn(v), files, s, name);
    forall n | n in NamesIn(v)
      ensures NamesIn(v)[n] != s
    {
      NameAt(v, files, n);
    }
    AddedByName(v, w, s, name);
  }

  lemma AddedByName(v: seq<Sector>, w: seq<Sector>, s: SectorNo, name: Name)
    requires NamesIn(w) == NamesIn(v)[name := s]
    requires forall n :: n in NamesIn(v) && n != name ==> Contents(w, NamesIn(v)[n]) == Contents(v, NamesIn(v)[n])
    ensures FilesByName(w) == FilesByName(v)[name := Contents(w, s)]
  {
    hide Contents, NamesIn;
  }

  /** A named file is gone, and its name with it. */
  lemma RemovedNamed(v: seq<Sector>, files: set<int>, w: seq<Sector>, name: Name)
    requires AllNamed(v, files) && name in NamesIn(v)
    requires NamesIn(w) == NamesIn(v) - {name} && DirectoryOk(Contents(w, ROOT_DIR)) && InodeAt(w, ROOT_DIR).isDir
    requires forall t :: t in files && t != NamesIn(v)[name] as int && t != ROOT_DIR as int && t != FREE_MAP ==>
               Kept(v, w, t)
    ensures AllNamed(w, files - {NamesIn(v)[name] as int})
    ensures FilesByName(w) == FilesByName(v) - {name}
  {
    hide Contents, Stays, Slots, Bindings, InodeAt, Kept, DirectoryOk, NamesIn, FilesByName, Bound;
    var m := NamesIn(v);
    NameAt(v, files, name);
    OthersNamed(v, files, w, m[name]);
    BoundLess(m, files, name);
    forall n | n in m && n != name
      ensures m[n] != m[name]
    {
      BoundApart(m, files, n, name);
    }
    DroppedByName(v, w, name);
  }

  lemma DroppedByName(v: seq<Sector>, w: seq<Sector>, name: Name)
    requires NamesIn(w) == NamesIn(v) - {name}
    requires forall n :: n in NamesIn(v) && n != name ==> Contents(w, NamesIn(v)[n]) == Contents(v, NamesIn(v)[n])
    ensures FilesByName(w) == FilesByName(v) - {name}
  {
    hide Contents, NamesIn;
  }

  // ----- when the directory is full

  lemma {:induction false} BindingsCount(t: seq<DirEntry>)
    requires TableOk(t)
    ensures |Bindings(t)| + 1 <= |t|
    ensures |Bindings(t)| + 1 == |t| <==> forall i :: 0 <= i < |t| ==> t[i].inUse
  {
    if |t| > 1 {
      var n := |t| - 1;
      var s := t[..n];
      BindingsCount(s);
      hide Text;
      BindingsAre(s, Text(t[n].name));
      assert forall i :: 0 <= i < n ==> s[i] == t[i];
      forall i: nat
        ensures t[n].inUse ==> !Binds(s, i, Text(t[n].name))
      {
      }
    }
  }

  lemma FreeSlotFull(t: seq<DirEntry>)
    requires TableOk(t)
    ensures FreeSlot(t) <= |t| && (FreeSlot(t) == |t| <==> |Bindings(t)| + 1 == |t|)
  {
    BindingsCount(t);
    hide Bindings, TableOk;
    assert FreeSlot(t) < |t| ==> !t[FreeSlot(t)].inUse;
  }

  lemma InOrderFacts(fs: FileSystem)
    requires InOrder(fs)
    ensures fs.Valid() && Rooted(fs) && AllNamed(fs.cache.view, fs.files) && Names(fs) == NamesIn(fs.cache.view)
    ensures RootLength(fs) == ENTRY * StateOf(fs).slots && |StateOf(fs).files| == |Names(fs)|
    ensures RootEnd(fs) == ENTRY * FreeSlot(Slots(Contents(fs.cache.view, ROOT_DIR))) + ENTRY
    ensures var t := Slots(Contents(fs.cache.view, ROOT_DIR));
            TableOk(t) && Names(fs) == Bindings(t) && StateOf(fs).slots == |t|
    ensures InodeAt(fs.cache.view, ROOT_DIR).isDir
  {
    hide FileSystem.Valid, Slots, Contents, InodeAt, TableOk, FreeSlot, Bindings, FilesByName;
    BoundFacts(Names(fs), fs.files);
    FileLength(fs, ROOT_DIR);
    RootSize(fs);
    var f := FilesByName(fs.cache.view);
    assert |f| == |f.Keys| && |Names(fs)| == |Names(fs).Keys|;
  }

  lemma RootSize(fs: FileSystem)
    requires fs.Valid() && ROOT_DIR as int in fs.files && DirectoryOk(Contents(fs.cache.view, ROOT_DIR))
    ensures RootLength(fs) == |Contents(fs.cache.view, ROOT_DIR)| == ENTRY * |Slots(Contents(fs.cache.view, ROOT_DIR))|
  {
    OwnedUsed(fs.cache.view, fs.freeMap.model, fs.files, {}, ROOT_DIR);
    ContentsSize(fs.cache.view, ROOT_DIR);
  }

  /** What an entry costs, and when it is refused an index block, can be told from the number of names. */
  lemma EntryFacts(fs: FileSystem)
    requires InOrder(fs)
    ensures EntryCost(RootLength(fs), RootEnd(fs)) == EntryPrice(StateOf(fs))
    ensures Longer(RootLength(fs), RootEnd(fs))
            == ENTRY * if Full(StateOf(fs)) then StateOf(fs).slots + 1 else StateOf(fs).slots
    ensures var n := ENTRY * StateOf(fs).slots;
            RefusedBlock(RootLength(fs), RootEnd(fs)) <==> Full(StateOf(fs)) && Flat.BlockRefused(0, n, n + ENTRY)
  {
    hide InOrder, EntryPrice, RefusedBlock, Longer, EntryCost, Slots, Contents, Bindings, FreeSlot, TableOk,
      FilesByName, InodeAt, Flat.BlockRefused, StateOf, RootLength, RootEnd, Names, FileSystem.Valid, Rooted, AllNamed;
    InOrderFacts(fs);
    var t := Slots(Contents(fs.cache.view, ROOT_DIR));
    FreeSlotFull(t);
    EntryAt(StateOf(fs), FreeSlot(t));
  }

  /** The same for a directory whose first free slot is number i. */
  lemma EntryAt(a: State, i: nat)
    requires i <= a.slots && (i == a.slots <==> |a.files| + 1 == a.slots)
    ensures EntryCost(ENTRY * a.slots, ENTRY * i + ENTRY) == EntryPrice(a)
    ensures Longer(ENTRY * a.slots, ENTRY * i + ENTRY) == ENTRY * if Full(a) then a.slots + 1 else a.slots
    ensures RefusedBlock(ENTRY * a.slots, ENTRY * i + ENTRY)
            <==> Full(a) && Flat.BlockRefused(0, ENTRY * a.slots, ENTRY * a.slots + ENTRY)
  {
    hide FileSize, FileGap, SectorsFor;
    var n, end := ENTRY * a.slots, ENTRY * i + ENTRY;
    if !Full(a) {
      SectorsForMonotone(end, n);
      NoGrowth(FileSize(SectorsFor(n)), SectorsFor(n), SectorsFor(end));
    }
  }

  lemma NoGrowth(s: nat, n: nat, m: nat)
    requires m <= n
    ensures !FileGap(s, n, m)
  {
  }

  // ----- the operations

  method CreateFile(fs: FileSystem, name: Name, length: nat) returns (reply: Reply)
    requires InOrder(fs) && Legal(Create(name, length), StateOf(fs))
    modifies fs`files, fs.cache, fs.cache.slots, fs.cache.disk, fs.freeMap, fs.freeMap.bits
    ensures fs.Valid() <==> Safe(Create(name, length), old(StateOf(fs)))
    ensures fs.Valid() ==> InOrder(fs) && Means(Create(name, length), reply, old(StateOf(fs)), StateOf(fs))
  {
    hide FileSystem.Valid, Contents, Kept, FileSize, SectorsFor, Free, InodeAt, Slots, Bindings, EntryCost, FileGap,
      DirectoryOk, Bound, FilesByName, RefusedBlock, Flat.BlockRefused;
    ghost var v, files, a := fs.cache.view, fs.files, StateOf(fs);
    InOrderFacts(fs);
    EntryFacts(fs);
    var ok, sector := Filesys.Create(fs, name, length);
    if ok {
      CreatedNamed(v, files, fs.cache.view, sector, name);
      InOrderFacts(fs);
      return Done;
    }
    if fs.Valid() {
      SameNamed(v, files, fs.cache.view);
    }
    return Failed;
  }

  /** filesys_open and inode_write_at. */
  method WriteFile(fs: FileSystem, name: Name, buffer: seq<Byte>, offset: nat) returns (reply: Reply)
    requires InOrder(fs) && Legal(Write(name, buffer, offset), StateOf(fs))
    modifies fs.cache, fs.cache.slots, fs.cache.disk, fs.freeMap, fs.freeMap.bits
    ensures fs.Valid() <==> Safe(Write(name, buffer, offset), old(StateOf(fs)))
    ensures fs.Valid() ==> InOrder(fs) && Means(Write(name, buffer, offset), reply, old(StateOf(fs)), StateOf(fs))
  {
    hide FileSystem.Valid, FileSystem.Ready, Contents, Kept, Written, FileSize, SectorsFor, Free, InodeAt, Slots,
      Bindings, FileGap, DirectoryOk, Bound, FilesByName, FileSystem.IndexBlocks, FileSystem.Refused, AllNamed, NamesIn,
      Rooted;
    ghost var v, files := fs.cache.view, fs.files;
    InOrderFacts(fs);
    var found, inode := OpenFile(fs, name);
    if !found {
      return Failed;
    }
    fs.OpenLength(inode);
    var n := inode.data.length;
    var count := fs.WriteAt(inode, buffer, offset);
    if fs.Valid() {
      WroteNamed(v, files, fs.cache.view, name);
      fs.OpenLength(inode);
    }
    reply := Wrote(count);
  }

  /** filesys_open */
  method OpenFile(fs: FileSystem, name: Name) returns (found: bool, inode: Inode)
    requires InOrder(fs) && 0 !in name
    modifies fs.cache`clock, fs.cache`home, fs.cache.slots, fs.cache.disk
    ensures InOrder(fs)
    ensures found <==> name in StateOf(fs).files
    ensures found ==>
      && fresh(inode) && fs.IsOpen(inode) && inode.denyWriteCnt == 0
      && inode.sector == NamesIn(fs.cache.view)[name]
      && StateOf(fs).files[name] == Contents(fs.cache.view, inode.sector)
  {
    hide FileSystem.Valid, Contents, Free, InodeAt, Slots, Bindings, DirectoryOk, Bound;
    InOrderFacts(fs);
    inode := fs.Open(ROOT_DIR);
    OpenFacts(fs, inode);
    var e, ofs;
    found, e, ofs := Lookup(fs, inode, name);
    if found {
      NameAt(fs.cache.view, fs.files, name);
      BindingsAre(Slots(Contents(fs.cache.view, ROOT_DIR)), name);
      inode := fs.Open(e.inodeSector);
    }
  }

  /** filesys_open and inode_read_at. */
  method ReadFile(fs: FileSystem, name: Name, size: int, offset: nat) returns (reply: Reply)
    requires InOrder(fs) && 0 !in name
    modifies fs.cache`clock, fs.cache`home, fs.cache.slots, fs.cache.disk
    ensures InOrder(fs) && Means(Read(name, size, offset), reply, old(StateOf(fs)), StateOf(fs))
  {
    hide FileSystem.Valid, Contents, Free, InodeAt, Slots, Bindings, DirectoryOk, Bound, Slice, FilesByName;
    InOrderFacts(fs);
    var found, inode := OpenFile(fs, name);
    if !found {
      return Failed;
    }
    var buffer := fs.Read(inode, size, offset);
    reply := Data(buffer);
  }

  /** filesys_remove */
  method RemoveFile(fs: FileSystem, name: Name) returns (reply: Reply)
    requires InOrder(fs) && 0 !in name
    modifies fs`files, fs.cache, fs.cache.slots, fs.cache.disk, fs.freeMap, fs.freeMap.bits
    ensures InOrder(fs) && Means(Remove(name), reply, old(StateOf(fs)), StateOf(fs))
  {
    hide FileSystem.Valid, Contents, Kept, Free, InodeAt, Slots, Bindings, DirectoryOk, FilesByName, Bound, PlainName,
      NamedSize, RootEnd, Flat.Price, AllNamed;
    ghost var v, files := fs.cache.view, fs.files;
    InOrderFacts(fs);
    PlainNamed(fs, name);
    var success := Filesys.Remove(fs, name);
    if success {
      RemovedNamed(v, files, fs.cache.view, name);
      InOrderFacts(fs);
      return Done;
    }
    return Failed;
  }

  /** What filesys_remove takes for granted holds of every name, and it frees what the file uses. */
  lemma PlainNamed(fs: FileSystem, name: Name)
    requires InOrder(fs)
    ensures PlainName(fs, name)
    ensures NamedSize(fs, name)
            == if name in StateOf(fs).files then 1 + Flat.Price(|StateOf(fs).files[name]|) else 0
  {
    hide FileSystem.Valid, Contents, FileSize, SectorsFor, InodeAt, Slots, Bindings, DirectoryOk, Bound;
    if name in NamesIn(fs.cache.view) {
      NameAt(fs.cache.view, fs.files, name);
    }
  }

  /** Carries out one operation. Afterwards the device is in order exactly if the operation was safe, and then the reply
      and the new state are those of the flat model. */
  method Perform(fs: FileSystem, op: Op) returns (reply: Reply, fs2: FileSystem)
    requires InOrder(fs) && Legal(op, StateOf(fs))
    modifies fs.Footprint()
    ensures fs2.Valid() <==> Safe(op, old(StateOf(fs)))
    ensures fs2.Valid() ==> InOrder(fs2) && Means(op, reply, old(StateOf(fs)), StateOf(fs2))
    ensures fresh(fs2.Footprint() - fs.Footprint())
  {
    hide FileSystem.Valid, FileSystem.Ready, AllNamed, FilesByName, Free, Flat.Price, Flat.Room, Flat.BlockRefused,
      Written, Slice, Contents, Slots, EntryPrice, Full, Unwanted, Creates;
    fs2 := fs;
    match op {
      case Create(name, length) =>
        reply := CreateFile(fs, name, length);
      case Write(name, buffer, offset) =>
        reply := WriteFile(fs, name, buffer, offset);
      case Read(name, size, offset) =>
        reply := ReadFile(fs, name, size, offset);
      case Remove(name) =>
        reply := RemoveFile(fs, name);
      case Remount =>
        fs2 := FileSystems.Remount(fs);
        reply := Done;
    }
  }

  /** Decides whether an operation is safe. */
  method Can(fs: FileSystem, op: Op) returns (can: bool)
    requires InOrder(fs)
    modifies fs.cache`clock, fs.cache`home, fs.cache.slots, fs.cache.disk
    ensures InOrder(fs) && StateOf(fs) == old(StateOf(fs))
    ensures can <==> Safe(op, StateOf(fs))
  {
    hide FileSystem.Valid, AllNamed, FilesByName, Free, Contents, Slots, EntryPrice, Full, Unwanted, Creates,
      Flat.BlockRefused, Flat.Room;
    match op {
      case Create(name, length) =>
        can := CanCreate(fs, name, length);
      case Write(name, buffer, offset) =>
        can := CanWrite(fs, name, buffer, offset);
      case Read(name, _, _) =>
        can := 0 !in name;
      case Remove(name) =>
        can := 0 !in name;
      case Remount =>
        can := true;
    }
  }

  method CanCreate(fs: FileSystem, name: Name, length: nat) returns (can: bool)
    requires InOrder(fs)
    modifies fs.cache`clock, fs.cache`home, fs.cache.slots, fs.cache.disk
    ensures InOrder(fs) && StateOf(fs) == old(StateOf(fs))
    ensures can <==> Safe(Create(name, length), StateOf(fs))
  {
    hide FileSystem.Valid, FileSystem.Ready, FilesByName, Free, Contents, Slots, Bindings, InodeAt, EntryCost,
      DirectoryOk, AllNamed, RefusedBlock, EntryPrice, Full, Flat.BlockRefused, Safe, CreateSafe;
    InOrderFacts(fs);
    EntryFacts(fs);
    fs.ValidReady();
    var free := fs.NumFreeSectors();
    var dir := fs.Open(ROOT_DIR);
    OpenFacts(fs, dir);
    if 0 in name {
      NulUnsafe(StateOf(fs), name, length);
      return false;
    }
    var found, e, at := Lookup(fs, dir, name);
    var ofs := FindFree(fs, dir);
    var n, end := dir.data.length, ofs + ENTRY;
    RefusedNow(n, end);
    CreateSafeIs(StateOf(fs), name, length, found, n, end);
    can := CreateSafe(name, length, free, found, n, end);
  }

  /** The test, for a directory of length n in which the entry would end at `end`. */
  predicate CreateSafe(name: Name, length: nat, free: nat, found: bool, n: int, end: nat) {
    && 0 !in name && length <= MAX_LENGTH && n + ENTRY <= MAX_LENGTH
    && var unwanted := !ValidName(name) || found;
       || (!unwanted && free >= 1 + Flat.Price(length) + EntryCost(n, end)) || free == 0
       || if free > 1 then length == 0 && unwanted
          else length > 0 || unwanted || !(SectorsFor(n) < SectorsFor(end) && IndexDue(SectorsFor(n)))
  }

  lemma NulUnsafe(a: State, name: Name, length: nat)
    requires 0 in name
    ensures !Safe(Create(name, length), a)
  {
  }

  lemma CreateSafeIs(a: State, name: Name, length: nat, found: bool, n: int, end: nat)
    requires n == ENTRY * a.slots && (found <==> name in a.files) && EntryCost(n, end) == EntryPrice(a)
    requires SectorsFor(n) < SectorsFor(end) && IndexDue(SectorsFor(n))
             <==> Full(a) && Flat.BlockRefused(0, n, n + ENTRY)
    ensures CreateSafe(name, length, a.free, found, n, end) <==> Safe(Create(name, length), a)
  {
    hide SectorsFor, FileSize, Flat.BlockRefused, EntryCost, EntryPrice, Full, IndexDue;
  }

  lemma RefusedNow(length: int, end: nat)
    ensures RefusedBlock(length, end) <==> SectorsFor(length) < SectorsFor(end) && IndexDue(SectorsFor(length))
  {
    hide FileGap, FileSize, SectorsFor;
    FullGap(SectorsFor(length), SectorsFor(end));
  }

  method CanWrite(fs: FileSystem, name: Name, buffer: seq<Byte>, offset: nat) returns (can: bool)
    requires InOrder(fs)
    modifies fs.cache`clock, fs.cache`home, fs.cache.slots, fs.cache.disk
    ensures InOrder(fs) && StateOf(fs) == old(StateOf(fs))
    ensures can <==> Safe(Write(name, buffer, offset), StateOf(fs))
  {
    hide FileSystem.Valid, FileSystem.Ready, FilesByName, Free, Contents, Slots, Bindings, FileSize, SectorsFor,
      InodeAt, FileGap, DirectoryOk, Bound, AllNamed;
    if 0 in name || offset + |buffer| > MAX_LENGTH {
      return false;
    }
    var found, inode := OpenFile(fs, name);
    if !found {
      return true;
    }
    InOrderFacts(fs);
    fs.ValidReady();
    var free := fs.NumFreeSectors();
    fs.OpenLength(inode);
    var n, end := inode.data.length, offset + |buffer|;
    FullGap(SectorsFor(n), SectorsFor(end));
    can := !Truncates(n, |buffer|, offset)
           && (Flat.Room(free, n, end) || (free == 0 && !(SectorsFor(n) < SectorsFor(end) && IndexDue(SectorsFor(n)))));
  }

  /** filesys_init with formatting: no names yet, and a thousand entries for them. */
  method Start(device: array<Sector>) returns (ok: bool, fs: FileSystem)
    requires 3 <= device.Length < 0x1_0000_0000 && 8 * ElemCnt(device.Length - 1) <= MAX_LENGTH
    modifies device
    ensures fresh(fs) && fresh(fs.cache) && fresh(fs.cache.slots) && fresh(fs.freeMap) && fresh(fs.freeMap.bits)
    ensures fs.cache.disk == device
    ensures ok <==>
      device.Length - 3 >= Flat.Price(8 * ElemCnt(device.Length - 1)) + Flat.Price(TableBytes(ROOT_ENTRIES))
    ensures ok ==>
      && InOrder(fs) && StateOf(fs).files == map[] && StateOf(fs).slots == ROOT_ENTRIES
      && StateOf(fs).free + Flat.Price(8 * ElemCnt(device.Length - 1)) + Flat.Price(TableBytes(ROOT_ENTRIES))
         == device.Length - 3
  {
    hide FileSystem.Valid, Contents, Slots, Bindings, Free, FileSize, SectorsFor, ElemCnt, DirectoryOk, EmptyTable,
      InodeAt;
    ok, fs := InitFormatted(device);
    if ok {
      RootSize(fs);
      NoNames(fs.cache.view);
    }
  }

  lemma NoNames(v: seq<Sector>)
    requires NamesIn(v) == map[]
    ensures FilesByName(v) == map[]
  {
    hide NamesIn, Contents;
  }

  /** Carries out operations by name for as long as they are safe, whether they succeed or fail. Whatever the run, every
      reply, the names and contents of all files, and the number of free sectors at every point are those of the flat
      model, and the device is in order at the end. */
  method Run(fs: FileSystem, ops: seq<Op>) returns (replies: seq<Reply>, fs2: FileSystem, ghost states: seq<State>)
    requires InOrder(fs)
    modifies fs.Footprint()
    ensures InOrder(fs2)
    ensures FlatRun(ops, replies, states)
    ensures states[0] == old(StateOf(fs)) && states[|replies|] == StateOf(fs2)
    ensures |replies| < |ops| ==> !Safe(ops[|replies|], states[|replies|])
  {
    hide FileSystem.Valid, AllNamed, Means, Safe, Legal, StateOf;
    replies, fs2 := [], fs;
    states := [StateOf(fs)];
    while |replies| < |ops|
      invariant InOrder(fs2)
      invariant fresh(fs2.Footprint() - fs.Footprint())
      invariant FlatRun(ops, replies, states)
      invariant states[0] == old(StateOf(fs)) && states[|replies|] == StateOf(fs2)
      decreases |ops| - |replies|
    {
      var op := ops[|replies|];
      var can := Can(fs2, op);
      if !can {
        return;
      }
      var reply;
      SafeLegal(op, StateOf(fs2));
      reply, fs2 := Perform(fs2, op);
      FlatStep(ops, replies, states, reply, StateOf(fs2));
      replies := replies + [reply];
      states := states + [StateOf(fs2)];
    }
  }

  lemma SafeLegal(op: Op, a: State)
    requires Safe(op, a)
    ensures Legal(op, a)
  {
  }

  lemma FlatStep(ops: seq<Op>, replies: seq<Reply>, states: seq<State>, reply: Reply, b: State)
    requires FlatRun(ops, replies, states) && |replies| < |ops|
    requires Safe(ops[|replies|], states[|replies|]) && Means(ops[|replies|], reply, states[|replies|], b)
    ensures FlatRun(ops, replies + [reply], states + [b])
  {
    hide Means, Safe;
  }
}
