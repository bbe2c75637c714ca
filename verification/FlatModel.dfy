/** The device as users see it, a map from inode sectors to byte sequences and a number of free sectors, and the proof
    that whole runs of creates, reads, writes, removals and remounts behave like that. */
module FlatModel {
  import opened Sectors
  import opened DiskFormat
  import opened FileTree
  import opened FileBytes
  import opened Accounting
  import opened Gaps
  import opened Volumes
  import opened FileSystems

  /** What every ordinary file contains. */
  type Files = map<int, seq<Byte>>

  /** All that a user can tell about the device: the files, which of them are directories, and the free sectors. */
  datatype State = State(files: Files, dirs: set<int>, free: nat)

  /** Denied is a write by an opener who has denied writes. */
  datatype Op =
    | Create(length: nat, isDir: bool)
    | Write(file: SectorNo, buffer: seq<Byte>, offset: nat)
    | Denied(file: SectorNo, buffer: seq<Byte>, offset: nat)
    | Read(file: SectorNo, size: int, offset: nat)
    | Remove(file: SectorNo)
    | Remount

  datatype Reply =
    | Created(file: SectorNo)
    | Refused
    | Wrote(count: nat)
    | Data(bytes: seq<Byte>)
    | Done

  /** The sectors that a file of this length uses, beside its inode. */
  function Price(length: nat): nat {
    FileSize(SectorsFor(length))
  }

  /** There is room to write a file of this length up to `end`. */
  predicate Room(free: nat, length: nat, end: nat) {
    end <= length || free + Price(length) >= Price(end)
  }

  /** Without that room, the sector that is refused is due to hold an index block. */
  ghost predicate BlockRefused(free: nat, length: nat, end: nat) {
    FileGap(free + Price(length), SectorsFor(length), SectorsFor(end))
  }

  /** The operation is one that a caller may ask for: its file exists, and it stays within the largest file. */
  predicate Legal(op: Op, m: Files) {
    match op
    case Create(length, _) => length <= MAX_LENGTH
    case Write(file, buffer, offset) => file as int in m && offset + |buffer| <= MAX_LENGTH
    case Denied(file, buffer, offset) => file as int in m && offset + |buffer| <= MAX_LENGTH
    case Read(file, _, _) => file as int in m
    case Remove(file) => file as int in m
    case Remount => true
  }

  /** The operation leaves the device in order: it succeeds, or it fails where nothing could be taken. */
  ghost predicate Safe(op: Op, a: State) {
    && Legal(op, a.files)
    && match op {
         case Create(length, _) => a.free >= 1 + Price(length) || a.free <= 1
         case Write(file, buffer, offset) =>
           var n, end := |a.files[file as int]|, offset + |buffer|;
           && !Truncates(n, |buffer|, offset)
           && (Room(a.free, n, end) || (a.free == 0 && !BlockRefused(0, n, end)))
         case _ => true
       }
  }

  /** The flat meaning of a safe operation. Only the sector of a new file is left open: it is one no file has. */
  ghost predicate Means(op: Op, reply: Reply, a: State, b: State) {
    match op
    case Create(length, isDir) =>
      if a.free >= 1 + Price(length) then
        && reply.Created? && reply.file as int !in a.files && reply.file as int != FREE_MAP
        && b.files == a.files[reply.file as int := ZeroBytes(length)]
        && b.dirs == (if isDir then a.dirs + {reply.file as int} else a.dirs)
        && b.free + 1 + Price(length) == a.free
      else
        reply == Reply.Refused && b == a
    case Write(file, buffer, offset) =>
      && file as int in a.files
      && var was := a.files[file as int];
         if Room(a.free, |was|, offset + |buffer|) then
           && reply == Wrote(|buffer|)
           && b.files == a.files[file as int := Written(was, offset, buffer)] && b.dirs == a.dirs
           && b.free + Price(|Written(was, offset, buffer)|) == a.free + Price(|was|)
         else
           reply == Wrote(0) && b == a
    case Denied(file, _, _) => file as int in a.files && reply == Wrote(0) && b == a
    case Read(file, size, offset) =>
      file as int in a.files && reply == Data(Slice(a.files[file as int], offset, size)) && b == a
    case Remove(file) =>
      && file as int in a.files && reply == Done
      && b.files == a.files - {file as int} && b.dirs == a.dirs - {file as int}
      && b.free == a.free + 1 + Price(|a.files[file as int]|)
    case Remount => reply == Done && b == a
  }

  /** A run of the flat model: its states, from the first to the last, one step for each reply. */
  ghost predicate FlatRun(ops: seq<Op>, replies: seq<Reply>, states: seq<State>) {
    && |replies| <= |ops| && |states| == |replies| + 1
    && forall i :: 0 <= i < |replies| ==>
         Safe(ops[i], states[i]) && Means(ops[i], replies[i], states[i], states[i + 1])
  }

  /** The inode sectors of all files after the operation. */
  function FilesAfter(op: Op, reply: Reply, files: set<int>): set<int> {
    if reply.Created? then files + {reply.file as int}
    else if op.Remove? then files - {op.file as int}
    else files
  }

  ghost function FilesOf(v: seq<Sector>, files: set<int>): (m: Files)
    ensures m.Keys == files - {FREE_MAP}
  {
    map s | s in files && s != FREE_MAP :: Contents(v, s)
  }

  ghost function StateOf(fs: FileSystem): State
    reads fs, fs.cache, fs.freeMap
  {
    State(FilesOf(fs.cache.view, fs.files), DirsOf(fs.cache.view, fs.files), Free(fs.freeMap.model))
  }

  ghost function DirsOf(v: seq<Sector>, files: set<int>): set<int> {
    set s | s in files && s != FREE_MAP && InodeAt(v, s).isDir
  }

  lemma DirsChange(v: seq<Sector>, files: set<int>, w: seq<Sector>, files2: set<int>, s: int)
    requires files2 - {s} == files - {s} && s != FREE_MAP
    requires forall t :: t in files && t != s && t != FREE_MAP ==> Kept(v, w, t)
    ensures DirsOf(w, files2)
            == DirsOf(v, files) - {s} + if s in files2 && InodeAt(w, s).isDir then {s} else {}
  {
    hide InodeAt, Kept;
    forall t | t != s && t != FREE_MAP
      ensures t in files2 <==> t in files
      ensures t in files ==> InodeAt(w, t) == InodeAt(v, t)
    {
      assert t in files2 - {s} <==> t in files - {s};
      if t in files {
        KeptHeader(v, w, t);
      }
    }
  }

  lemma KeptHeader(v: seq<Sector>, w: seq<Sector>, t: int)
    requires Kept(v, w, t)
    ensures InodeAt(w, t) == InodeAt(v, t)
  {
    hide InodeAt, Owned, FileWf, TailZero, Contents;
  }

  /** What the flat map says about one file is all that changed when the others were kept. */
  lemma FilesChange(v: seq<Sector>, files: set<int>, w: seq<Sector>, files2: set<int>, s: int)
    requires files2 - {s} == files - {s} && s != FREE_MAP
    requires forall t :: t in files && t != s && t != FREE_MAP ==> Kept(v, w, t)
    ensures s in files2 ==> FilesOf(w, files2) == FilesOf(v, files)[s := Contents(w, s)]
    ensures s !in files2 ==> FilesOf(w, files2) == FilesOf(v, files) - {s}
  {
    hide Contents, Stays;
    forall t | t in files2 && t != s && t != FREE_MAP
      ensures t in files && Contents(w, t) == Contents(v, t)
    {
      assert t in files2 - {s};
      assert Kept(v, w, t);
    }
    forall t | t in files && t != s
      ensures t in files2
    {
      assert t in files - {s};
    }
  }

  lemma FilesSame(v: seq<Sector>, files: set<int>, w: seq<Sector>)
    requires forall t :: t in files && t != FREE_MAP ==> Kept(v, w, t)
    ensures FilesOf(w, files) == FilesOf(v, files) && DirsOf(w, files) == DirsOf(v, files)
  {
    hide Contents, Kept, InodeAt;
    forall t | t in files && t != FREE_MAP
      ensures Contents(w, t) == Contents(v, t) && InodeAt(w, t) == InodeAt(v, t)
    {
      KeptHeader(v, w, t);
      KeptBytes(v, w, t);
    }
  }

  lemma KeptBytes(v: seq<Sector>, w: seq<Sector>, t: int)
    requires Kept(v, w, t)
    ensures Contents(w, t) == Contents(v, t)
  {
    hide InodeAt, Owned, FileWf, TailZero, Contents;
  }

  lemma FilesAt(v: seq<Sector>, files: set<int>, s: int)
    requires s in FilesOf(v, files)
    ensures s in files && s != FREE_MAP && FilesOf(v, files)[s] == Contents(v, s)
  {
  }

  method PerformWrite(fs: FileSystem, file: SectorNo, buffer: seq<Byte>, offset: nat) returns (reply: Reply)
    requires fs.Valid() && Legal(Write(file, buffer, offset), StateOf(fs).files)
    modifies fs.cache, fs.cache.slots, fs.cache.disk, fs.freeMap, fs.freeMap.bits
    ensures fs.Valid() <==> Safe(Write(file, buffer, offset), old(StateOf(fs)))
    ensures fs.Valid() ==> Means(Write(file, buffer, offset), reply, old(StateOf(fs)), StateOf(fs))
    ensures !reply.Created?
  {
    hide FileSystem.Valid, Contents, Kept, FilesOf, Written, FileSize, SectorsFor, Free, InodeAt, FileSystem.Ready,
      FileGap, FileSystem.IndexBlocks, FileSystem.Refused;
    ghost var v, b := fs.cache.view, Contents(fs.cache.view, file);
    FilesAt(v, fs.files, file);
    var inode := fs.Open(file);
    fs.OpenLength(inode);
    ghost var n := inode.data.length;
    var count := fs.WriteAt(inode, buffer, offset);
    if Room(Free(old(fs.freeMap.model)), n, offset + |buffer|) && !Truncates(n, |buffer|, offset) {
      fs.OpenLength(inode);
      FilesChange(v, fs.files, fs.cache.view, fs.files, file);
      DirsChange(v, fs.files, fs.cache.view, fs.files, file);
    }
    reply := Wrote(count);
  }

  method PerformDenied(fs: FileSystem, file: SectorNo, buffer: seq<Byte>, offset: nat) returns (reply: Reply)
    requires fs.Valid() && Legal(Denied(file, buffer, offset), StateOf(fs).files)
    modifies fs.cache, fs.cache.slots, fs.cache.disk, fs.freeMap, fs.freeMap.bits
    ensures fs.Valid() && Means(Denied(file, buffer, offset), reply, old(StateOf(fs)), StateOf(fs))
    ensures !reply.Created?
  {
    hide FileSystem.Valid, Contents, Kept, FilesOf, Free, InodeAt, FileSystem.Ready, Enough, FileSize, Wipes,
      FileSystem.IndexBlocks, FileSystem.Refused;
    FilesAt(fs.cache.view, fs.files, file);
    var inode := fs.Open(file);
    fs.DenyWrite(inode);
    var count := fs.WriteAt(inode, buffer, offset);
    fs.AllowWrite(inode);
    reply := Wrote(count);
  }

  method PerformRead(fs: FileSystem, file: SectorNo, size: int, offset: nat) returns (reply: Reply)
    requires fs.Valid() && file as int in StateOf(fs).files
    modifies fs.cache`clock, fs.cache`home, fs.cache.slots, fs.cache.disk
    ensures fs.Valid() && Means(Read(file, size, offset), reply, old(StateOf(fs)), StateOf(fs))
    ensures !reply.Created?
  {
    hide FileSystem.Valid, Contents, Slice, InodeAt, FileSystem.Ready, FilesOf, Free;
    FilesAt(fs.cache.view, fs.files, file);
    var inode := fs.Open(file);
    var buffer := fs.Read(inode, size, offset);
    reply := Data(buffer);
  }

  method PerformCreate(fs: FileSystem, length: nat, isDir: bool) returns (reply: Reply)
    requires fs.Valid() && length <= MAX_LENGTH
    modifies fs`files, fs.cache, fs.cache.slots, fs.cache.disk, fs.freeMap, fs.freeMap.bits
    ensures fs.files == FilesAfter(Create(length, isDir), reply, old(fs.files))
    ensures fs.Valid() <==> Safe(Create(length, isDir), old(StateOf(fs)))
    ensures fs.Valid() ==> Means(Create(length, isDir), reply, old(StateOf(fs)), StateOf(fs))
  {
    hide FileSystem.Valid, Contents, Kept, FilesOf, FileSize, SectorsFor, FileSystem.Ready, Free, InodeAt, FileGap,
      First;
    ghost var v, files := fs.cache.view, fs.files;
    fs.ValidFiles();
    var ok, sector := fs.CreateFile(length, isDir);
    if !ok {
      FilesSame(v, files, fs.cache.view);
      return Reply.Refused;
    }
    FilesChange(v, files, fs.cache.view, fs.files, sector);
    DirsChange(v, files, fs.cache.view, fs.files, sector);
    NotThere(v, files, sector);
    reply := Created(sector);
  }

  lemma NotThere(v: seq<Sector>, files: set<int>, s: int)
    requires s !in files
    ensures s !in FilesOf(v, files) && s !in DirsOf(v, files)
  {
  }

  method PerformRemove(fs: FileSystem, file: SectorNo) returns (reply: Reply)
    requires fs.Valid() && file as int in StateOf(fs).files
    modifies fs`files, fs.cache, fs.cache.slots, fs.cache.disk, fs.freeMap, fs.freeMap.bits
    ensures fs.Valid() && reply == Done && fs.files == old(fs.files) - {file as int}
    ensures Means(Remove(file), reply, old(StateOf(fs)), StateOf(fs))
  {
    hide FileSystem.Valid, Contents, Kept, FilesOf, FileSize, SectorsFor, FileSystem.Ready, Free, Used, InodeAt, Owned;
    ghost var v, files := fs.cache.view, fs.files;
    FilesAt(v, files, file);
    var inode := fs.Open(file);
    fs.OpenLength(inode);
    fs.Remove(inode);
    FilesChange(v, files, fs.cache.view, fs.files, file);
    DirsChange(v, files, fs.cache.view, fs.files, file);
    reply := Done;
  }

  /** Carries out one operation with the file system's own methods. Afterwards the device is in order exactly if the
      operation was safe, and then the reply and the new state are those of the flat model. */
  method Perform(fs: FileSystem, op: Op) returns (reply: Reply, fs2: FileSystem)
    requires fs.Valid() && Legal(op, StateOf(fs).files)
    modifies fs.Footprint()
    ensures fs2.Valid() <==> Safe(op, old(StateOf(fs)))
    ensures fs2.Valid() ==> Means(op, reply, old(StateOf(fs)), StateOf(fs2))
    ensures fs2.files == FilesAfter(op, reply, old(fs.files))
    ensures fresh(fs2.Footprint() - fs.Footprint())
  {
    hide FileSystem.Valid, FileSystem.Ready, FilesOf, Free, Price, Room, BlockRefused, Written, Slice;
    fs2 := fs;
    match op {
      case Create(length, isDir) =>
        reply := PerformCreate(fs, length, isDir);
      case Write(file, buffer, offset) =>
        reply := PerformWrite(fs, file, buffer, offset);
      case Denied(file, buffer, offset) =>
        reply := PerformDenied(fs, file, buffer, offset);
      case Read(file, size, offset) =>
        reply := PerformRead(fs, file, size, offset);
      case Remove(file) =>
        reply := PerformRemove(fs, file);
      case Remount =>
        fs2 := FileSystems.Remount(fs);
        reply := Done;
    }
  }

  /** These are the inode sectors of the ordinary files. */
  ghost predicate Names(names: set<SectorNo>, files: set<int>) {
    forall s: SectorNo :: s in names <==> s as int in files && s as int != FREE_MAP
  }

  /** Decides whether an operation is safe, from the number of free sectors and the length of the file. */
  method Can(fs: FileSystem, op: Op, names: set<SectorNo>) returns (can: bool)
    requires fs.Valid() && Names(names, fs.files)
    modifies fs.cache`clock, fs.cache`home, fs.cache.slots, fs.cache.disk
    ensures fs.Valid() && StateOf(fs) == old(StateOf(fs))
    ensures can <==> Safe(op, StateOf(fs))
  {
    hide FileSystem.Valid, Free, FileSize, InodeAt, FileSystem.Ready, SectorsFor, Contents, FileGap;
    fs.ValidReady();
    match op {
      case Create(length, _) =>
        var free := fs.NumFreeSectors();
        can := length <= MAX_LENGTH && (free >= 1 + Price(length) || free <= 1);
      case Write(file, buffer, offset) =>
        can := false;
        if file in names && offset + |buffer| <= MAX_LENGTH {
          var free := fs.NumFreeSectors();
          var inode := fs.Open(file);
          fs.OpenLength(inode);
          var n, end := inode.data.length, offset + |buffer|;
          FullGap(SectorsFor(n), SectorsFor(end));
          can := !Truncates(n, |buffer|, offset)
                 && (Room(free, n, end)
                     || (free == 0 && !(SectorsFor(n) < SectorsFor(end) && IndexDue(SectorsFor(n)))));
        }
      case Denied(file, buffer, offset) =>
        can := file in names && offset + |buffer| <= MAX_LENGTH;
      case Read(file, _, _) =>
        can := file in names;
      case Remove(file) =>
        can := file in names;
      case Remount =>
        can := true;
    }
  }

  /** Carries out an operation if it is safe. */
  method Step(fs: FileSystem, op: Op, names: set<SectorNo>)
    returns (done: bool, reply: Reply, fs2: FileSystem, names2: set<SectorNo>)
    requires fs.Valid() && Names(names, fs.files)
    modifies fs.Footprint()
    ensures fs2.Valid() && Names(names2, fs2.files)
    ensures fresh(fs2.Footprint() - fs.Footprint())
    ensures done <==> Safe(op, old(StateOf(fs)))
    ensures done ==> Means(op, reply, old(StateOf(fs)), StateOf(fs2))
    ensures !done ==> StateOf(fs2) == old(StateOf(fs))
  {
    hide FileSystem.Valid, Means, FilesOf, Safe, Legal, Names, FilesAfter, Free;
    ghost var a, files := StateOf(fs), fs.files;
    reply, fs2, names2 := Done, fs, names;
    done := Can(fs, op, names);
    if done {
      SafeLegal(op, a);
      reply, fs2 := Perform(fs, op);
      NamesStep(names, files, op, reply, a, StateOf(fs2));
      names2 := if reply.Created? then names + {reply.file} else if op.Remove? then names - {op.file} else names;
    }
  }

  /** Carries out operations for as long as they are safe, whether they succeed or are refused. Whatever the run, every
      reply, the contents of all files and the number of free sectors at every point are those of the flat model, and
      the file system is in order at the end. */
  method Run(fs: FileSystem, ops: seq<Op>, names0: set<SectorNo>)
    returns (replies: seq<Reply>, fs2: FileSystem, ghost states: seq<State>)
    requires fs.Valid() && Names(names0, fs.files)
    modifies fs.Footprint()
    ensures fs2.Valid()
    ensures FlatRun(ops, replies, states)
    ensures states[0] == old(StateOf(fs)) && states[|replies|] == StateOf(fs2)
    ensures |replies| < |ops| ==> !Safe(ops[|replies|], states[|replies|])
  {
    hide FileSystem.Valid, Means, StateOf, Safe, Names;
    replies, fs2 := [], fs;
    states := [StateOf(fs)];
    var names := names0;
    while |replies| < |ops|
      invariant fs2.Valid() && Names(names, fs2.files)
      invariant fresh(fs2.Footprint() - fs.Footprint())
      invariant FlatRun(ops, replies, states)
      invariant states[0] == old(StateOf(fs)) && states[|replies|] == StateOf(fs2)
      decreases |ops| - |replies|
    {
      var done, reply;
      done, reply, fs2, names := Step(fs2, ops[|replies|], names);
      if !done {
        return;
      }
      FlatStep(ops, replies, states, reply, StateOf(fs2));
      replies := replies + [reply];
      states := states + [StateOf(fs2)];
    }
  }

  lemma SafeLegal(op: Op, a: State)
    requires Safe(op, a)
    ensures Legal(op, a.files)
  {
  }

  lemma NamesStep(names: set<SectorNo>, files: set<int>, op: Op, reply: Reply, a: State, b: State)
    requires Names(names, files) && Means(op, reply, a, b)
    ensures Names(if reply.Created? then names + {reply.file} else if op.Remove? then names - {op.file} else names,
                  FilesAfter(op, reply, files))
  {
  }

  lemma FlatStep(ops: seq<Op>, replies: seq<Reply>, states: seq<State>, reply: Reply, b: State)
    requires FlatRun(ops, replies, states) && |replies| < |ops|
    requires Safe(ops[|replies|], states[|replies|]) && Means(ops[|replies|], reply, states[|replies|], b)
    ensures FlatRun(ops, replies + [reply], states + [b])
  {
    hide Means, Safe;
  }
}
