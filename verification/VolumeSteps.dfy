/** What growing, overwriting, creating and removing one file does to the whole device. */
module VolumeSteps {
  import opened Sectors
  import opened DiskFormat
  import opened BlockTree
  import opened Growth
  import opened FileTree
  import opened FileBytes
  import opened Accounting
  import opened Reserving
  import opened Releasing
  import opened Volumes

  /** md is every sector of the free-map file but the one its inode is in. */
  ghost predicate MapAt(v: View, md: set<int>) {
    md == FileNodes(v, InodeAt(v, FREE_MAP), CountAt(v, FREE_MAP))
  }

  lemma MapIs(v: View, md: set<int>)
    requires MapAt(v, md)
    ensures md == FileNodes(v, InodeAt(v, FREE_MAP), CountAt(v, FREE_MAP))
  {
  }

  lemma MapIsAt(v: View, md: set<int>)
    requires md == FileNodes(v, InodeAt(v, FREE_MAP), CountAt(v, FREE_MAP))
    ensures MapAt(v, md)
  {
  }

  /** A file of the volume is ready for reservation. */
  lemma FileSettled(v: View, bits: seq<bool>, files: set<int>, loose: set<int>, s: int, md: set<int>)
    requires VolumeOk(v, bits, files, loose) && s in files && s != FREE_MAP && FREE_MAP in files
    requires MapAt(v, md)
    ensures Settled(v, bits, Roots(InodeAt(v, s), CountAt(v, s)), md)
    ensures s !in md && s in Used(bits)
    ensures FREE_MAP !in FileNodes(v, InodeAt(v, s), CountAt(v, s)) && FREE_MAP !in md
  {
    hide FileNodes, Used, TailZero, InodeAt, CountAt, ForestOk;
    OwnedUsed(v, bits, files, loose, s);
    OwnedUsed(v, bits, files, loose, FREE_MAP);
    OwnedApart(v, bits, files, loose, s, FREE_MAP);
    SettledRoots(v, bits, InodeAt(v, s), CountAt(v, s), md);
  }

  lemma SettledRoots(v: View, bits: seq<bool>, d: InodeDisk, n: nat, md: set<int>)
    requires FileOk(v, d, n)
    requires FileNodes(v, d, n) <= Used(bits) && md <= Used(bits) && md !! FileNodes(v, d, n)
    ensures Settled(v, bits, Roots(d, n), md)
  {
  }

  /** What a reservation for file s may have changed touches no other file but the free map's data. */
  lemma OthersUntouched(v: View, bits: seq<bool>, files: set<int>, loose: set<int>, s: int, t: int,
                        w: View, changed: set<int>, md: set<int>, g: set<int>)
    requires VolumeOk(v, bits, files, loose) && s in files && t in files && t != s && t != FREE_MAP && FREE_MAP in files
    requires MapAt(v, md) && g !! Used(bits)
    requires AgreeOff(v, w, changed) && changed <= g + Owned(v, s) + md
    ensures Kept(v, w, t)
  {
    hide FileNodes, Used, TailZero, InodeAt, CountAt, FileWf, Kept;
    OwnedUsed(v, bits, files, loose, t);
    OwnedApart(v, bits, files, loose, s, t);
    OwnedApart(v, bits, files, loose, FREE_MAP, t);
    KeptOff(v, w, t, changed);
  }

  /** The free-map file stays where it is, as far as its own layer vouches for its blocks. */
  lemma MapStays(v: View, w: View, changed: set<int>, md: set<int>)
    requires FileWf(v, FREE_MAP) && MapAt(v, md)
    requires AgreeOff(v, w, changed) && FREE_MAP !in changed
    requires FileOk(w, InodeAt(v, FREE_MAP), CountAt(v, FREE_MAP))
    requires FileNodes(w, InodeAt(v, FREE_MAP), CountAt(v, FREE_MAP)) == md
    ensures Stays(v, w, FREE_MAP)
    ensures MapAt(w, md)
  {
    assert w[0] == v[0];
    hide FileNodes, FileOk, DecodeInode;
  }

  /** The padded contents of a file that grew. */
  lemma GrownBytes(v: View, d: InodeDisk, w: View, d2: InodeDisk)
    requires TailZero(v, d) && d2.Fits() && d.length <= d2.length
    requires SectorsFor(d.length) <= SectorsFor(d2.length) <= MAX_SECTORS
    requires Raw(w, d2, SectorsFor(d2.length))
             == Raw(v, d, SectorsFor(d.length)) + ZeroBytes(512 * (SectorsFor(d2.length) - SectorsFor(d.length)))
    ensures TailZero(w, d2)
    ensures Bytes(w, d2) == Bytes(v, d) + ZeroBytes(d2.length - d.length)
  {
    hide Raw;
    SectorsForBounds(d.length);
    SectorsForBounds(d2.length);
    var a, b := Raw(w, d2, SectorsFor(d2.length)), Raw(v, d, SectorsFor(d.length));
    assert forall k :: 0 <= k < |b| ==> a[k] == b[k];
  }

  /** Writing an inode to its own sector. */
  lemma InodeWritten(w: View, s: int, d: InodeDisk)
    requires 0 <= s < |w| && d.Fits()
    ensures InodeAt(w[s := EncodeInode(d)], s) == d
    ensures CountAt(w[s := EncodeInode(d)], s) == SectorsFor(d.length)
  {
    InodeRoundTrip(d);
  }

  /** The file whose blocks were reserved, once its inode is written: its sectors and its bytes. */
  lemma GrownFile(v: View, bits: seq<bool>, s: int, d: InodeDisk, w: View, bits2: seq<bool>, d2: InodeDisk,
                  md: set<int>)
    requires d.Fits() && d2.Fits() && d2.magic == INODE_MAGIC && d.length <= d2.length && 0 <= s < |v|
    requires FileOk(v, d, SectorsFor(d.length)) && TailZero(v, d)
    requires Settled(v, bits, Roots(d, SectorsFor(d.length)), md) && s !in FileNodes(v, d, SectorsFor(d.length))
    requires s in Used(bits)
    requires Extended(v, bits, Roots(d, SectorsFor(d.length)), w, bits2, Roots(d2, SectorsFor(d2.length)), md)
    ensures |w| == |v| && FileWf(w[s := EncodeInode(d2)], s)
    ensures Owned(w[s := EncodeInode(d2)], s) == {s} + FileNodes(v, d, SectorsFor(d.length)) + Gained(bits, bits2)
    ensures TailZero(w[s := EncodeInode(d2)], d2) && InodeAt(w[s := EncodeInode(d2)], s) == d2
    ensures Contents(w[s := EncodeInode(d2)], s) == Bytes(v, d) + ZeroBytes(d2.length - d.length)
  {
    hide Raw, FileOk, FileNodes, Used, Settled, Extended, InodeAt, FileIndex, FileData, EncodeInode, Roots, ForestGrew,
      SectorsFor, TailZero;
    var n, m, g := SectorsFor(d.length), SectorsFor(d2.length), Gained(bits, bits2);
    SectorsForBounds(d.length);
    SectorsForBounds(d2.length);
    SectorsForMonotone(d.length, d2.length);
    DataKept(v, bits, d, n, w, bits2, d2, m, md);
    GrownNodes(v, bits, d, n, w, bits2, d2, m, md);
    RawGrow(v, d, n, w, d2, m, g);
    var w2 := w[s := EncodeInode(d2)];
    RawFrame(w, w2, d2, m);
    InodeWritten(w, s, d2);
    GrownBytes(v, d, w2, d2);
  }

  lemma SectorsForMonotone(a: int, b: int)
    requires a <= b
    ensures SectorsFor(a) <= SectorsFor(b)
  {
  }

  /** A reservation does not touch the data the file already has. */
  lemma DataKept(v: View, bits: seq<bool>, d: InodeDisk, n: nat, w: View, bits2: seq<bool>, d2: InodeDisk, m: nat,
                 md: set<int>)
    requires FileOk(v, d, n) && |d2.direct| == DIRECT_BLOCKS
    requires Settled(v, bits, Roots(d, n), md)
    requires Extended(v, bits, Roots(d, n), w, bits2, Roots(d2, m), md)
    ensures forall x :: x in FileData(v, d, n) && 0 <= x < |v| ==> x < |w| && w[x] == v[x]
  {
    DataInNodes(v, d, n);
    hide FileData, Used, ForestGrew, ForestOk, ForestIndex, ForestNodes, FileOk;
    assert FileNodes(v, d, n) == ForestNodes(v, Roots(d, n)) && FileIndex(v, d, n) == ForestIndex(v, Roots(d, n));
  }

  lemma GrownNodes(v: View, bits: seq<bool>, d: InodeDisk, n: nat, w: View, bits2: seq<bool>, d2: InodeDisk, m: nat,
                   md: set<int>)
    requires |d.direct| == DIRECT_BLOCKS && |d2.direct| == DIRECT_BLOCKS
    requires Extended(v, bits, Roots(d, n), w, bits2, Roots(d2, m), md)
    ensures FileNodes(w, d2, m) == FileNodes(v, d, n) + Gained(bits, bits2)
    ensures |w| == |v|
    ensures ForestGrew(v, Roots(d, n), w, Roots(d2, m), Gained(bits, bits2))
  {
    hide Grew, ForestOk, ForestIndex, Used;
  }

  /** Growing one file and writing its inode keeps the volume in order, every other ordinary file as it
      was, and pads the grown file with zeros. */
  lemma GrownVolume(v: View, bits: seq<bool>, files: set<int>, loose: set<int>, s: int,
                    w: View, bits2: seq<bool>, d2: InodeDisk, md: set<int>)
    requires VolumeOk(v, bits, files, loose) && s in files && s != FREE_MAP && FREE_MAP in files
    requires MapAt(v, md)
    requires d2.Fits() && d2.magic == INODE_MAGIC && InodeAt(v, s).length <= d2.length
    requires Extended(v, bits, Roots(InodeAt(v, s), CountAt(v, s)), w, bits2, Roots(d2, SectorsFor(d2.length)), md)
    requires FileOk(w, InodeAt(v, FREE_MAP), CountAt(v, FREE_MAP))
    requires FileNodes(w, InodeAt(v, FREE_MAP), CountAt(v, FREE_MAP)) == md
    ensures 0 <= s < |w|
    ensures VolumeOk(w[s := EncodeInode(d2)], bits2, files, loose)
    ensures InodeAt(w[s := EncodeInode(d2)], s) == d2
    ensures Contents(w[s := EncodeInode(d2)], s) == Contents(v, s) + ZeroBytes(d2.length - InodeAt(v, s).length)
    ensures AgreeOff(v, w[s := EncodeInode(d2)], Owned(w[s := EncodeInode(d2)], s) + md)
    ensures forall t :: t in files && t != s && t != FREE_MAP ==> Kept(v, w[s := EncodeInode(d2)], t)
    ensures Stays(v, w[s := EncodeInode(d2)], FREE_MAP) && MapAt(w[s := EncodeInode(d2)], md)
  {
    hide Used, FileOk, FileNodes, TailZero, Settled, Extended, EncodeInode, Roots, SectorsFor, AllOwned, FileIndex,
      Owned, FilesOk, Kept, Stays;
    var d, n, g := InodeAt(v, s), CountAt(v, s), Gained(bits, bits2);
    OwnedUsed(v, bits, files, loose, s);
    OwnedUsed(v, bits, files, loose, FREE_MAP);
    FileTail(v, bits, files, loose, s);
    FileSettled(v, bits, files, loose, s, md);
    GrownFile(v, bits, s, d, w, bits2, d2, md);
    var w2 := w[s := EncodeInode(d2)];
    var changed := g + FileIndex(v, d, n) + md + {s};
    ExtendedChange(v, bits, d, n, w, bits2, d2, md);
    assert AgreeOff(v, w2, changed);
    OwnedOf(v, s);
    FileIndexInNodes(v, d, n);
    forall t | t in files && t != s
      ensures t != FREE_MAP ==> Kept(v, w2, t)
      ensures Stays(v, w2, t)
      ensures t == FREE_MAP ==> MapAt(w2, md)
    {
      if t == FREE_MAP {
        SameMap(v, bits, files, loose, s, w, w2, changed, md, g);
      } else {
        OthersUntouched(v, bits, files, loose, s, t, w2, changed, md, g);
        KeptStays(v, w2, t);
      }
    }
    FilesOkOf(v, bits, files, loose);
    FewerFiles(v, files, loose, files - {s}, loose);
    OthersApart(v, files, loose, s);
    AllBut(v, files, s);
    GainedUsed(bits, bits2);
    AllUsed(v, bits, files, loose);
    VolumeStep(v, files, loose, w2, bits2, loose, s, Owned(w2, s));
  }

  /** A change of the inode's own sector keeps every other file. */
  lemma OthersKept(v: View, bits: seq<bool>, files: set<int>, s: int, w: View)
    requires VolumeOk(v, bits, files, {}) && s in files && AgreeOff(v, w, {s})
    ensures forall t :: t in files && t != s ==> Kept(v, w, t)
  {
    hide VolumeOk, Kept, FileWf, Owned;
    OwnedUsed(v, bits, files, {}, s);
    forall t | t in files && t != s
      ensures Kept(v, w, t)
    {
      OwnedUsed(v, bits, files, {}, t);
      OwnedApart(v, bits, files, {}, s, t);
      KeptOff(v, w, t, {s});
    }
  }

  lemma KeptStays(v: View, w: View, t: int)
    requires Kept(v, w, t)
    ensures Stays(v, w, t)
  {
  }

  lemma FilesOkOf(v: View, bits: seq<bool>, files: set<int>, loose: set<int>)
    requires VolumeOk(v, bits, files, loose)
    ensures FilesOk(v, files, loose)
  {
  }

  lemma AllUsed(v: View, bits: seq<bool>, files: set<int>, loose: set<int>)
    requires VolumeOk(v, bits, files, loose)
    ensures Used(bits) == AllOwned(v, files) + loose
  {
  }

  lemma GainedUsed(bits: seq<bool>, bits2: seq<bool>)
    requires Keeps(bits, bits2)
    ensures Used(bits2) == Used(bits) + Gained(bits, bits2) && Gained(bits, bits2) !! Used(bits)
  {
    hide Used;
  }

  lemma OwnedOf(v: View, s: int)
    ensures Owned(v, s) == {s} + FileNodes(v, InodeAt(v, s), CountAt(v, s))
  {
  }

  lemma FileTail(v: View, bits: seq<bool>, files: set<int>, loose: set<int>, s: int)
    requires VolumeOk(v, bits, files, loose) && s in files && s != FREE_MAP
    ensures TailZero(v, InodeAt(v, s))
  {
  }

  lemma ExtendedChange(v: View, bits: seq<bool>, d: InodeDisk, n: nat, w: View, bits2: seq<bool>, d2: InodeDisk,
                       md: set<int>)
    requires |d.direct| == DIRECT_BLOCKS && |d2.direct| == DIRECT_BLOCKS && d2.Fits()
    requires Extended(v, bits, Roots(d, n), w, bits2, Roots(d2, SectorsFor(d2.length)), md)
    ensures AgreeOff(v, w, Gained(bits, bits2) + FileIndex(v, d, n) + md)
    ensures Keeps(bits, bits2)
  {
  }

  /** The free-map file of a volume stays put when a file is reserved for and its inode written. */
  lemma SameMap(v: View, bits: seq<bool>, files: set<int>, loose: set<int>, s: int,
                w: View, w2: View, changed: set<int>, md: set<int>, g: set<int>)
    requires VolumeOk(v, bits, files, loose) && s in files && s != FREE_MAP && FREE_MAP in files
    requires MapAt(v, md) && g !! Used(bits)
    requires changed <= g + Owned(v, s) + md && AgreeOff(v, w2, changed)
    requires AgreeOff(w, w2, {s})
    requires FileOk(w, InodeAt(v, FREE_MAP), CountAt(v, FREE_MAP))
    requires FileNodes(w, InodeAt(v, FREE_MAP), CountAt(v, FREE_MAP)) == md
    ensures Stays(v, w2, FREE_MAP) && MapAt(w2, md)
  {
    hide Used, FileOk, FileNodes, TailZero, FileIndex, InodeAt, CountAt;
    OwnedUsed(v, bits, files, loose, FREE_MAP);
    OwnedUsed(v, bits, files, loose, s);
    OwnedApart(v, bits, files, loose, s, FREE_MAP);
    var d, n := InodeAt(v, FREE_MAP), CountAt(v, FREE_MAP);
    MapCountOk(w, d, n);
    RawFrame(w, w2, d, n);
    MapStays(v, w2, changed, md);
  }

  lemma MapCountOk(v: View, d: InodeDisk, n: nat)
    requires FileOk(v, d, n)
    ensures |d.direct| == DIRECT_BLOCKS && n <= MAX_SECTORS
  {
  }

  /** Overwriting part of one file keeps the volume in order and every other file, the free map included, as it was. */
  lemma OverwroteVolume(v: View, bits: seq<bool>, files: set<int>, loose: set<int>, s: int,
                        w: View, offset: nat, buf: seq<Byte>)
    requires VolumeOk(v, bits, files, loose) && s in files && s != FREE_MAP
    requires FileWf(v, s) && offset + |buf| <= InodeAt(v, s).length
    requires offset + |buf| <= 512 * CountAt(v, s) && CountAt(v, s) <= MAX_SECTORS
    requires Overwritten(v, w, InodeAt(v, s), CountAt(v, s), offset, buf)
    ensures VolumeOk(w, bits, files, loose)
    ensures InodeAt(w, s) == InodeAt(v, s) && Contents(w, s) == Splice(Contents(v, s), offset, buf)
    ensures AgreeOff(v, w, Owned(v, s)) && Owned(w, s) == Owned(v, s)
    ensures forall t :: t in files && t != s ==> Kept(v, w, t)
  {
    hide Used, FileNodes, TailZero, Roots, SectorsFor, AllOwned, FileIndex, Owned, FilesOk, Kept, Stays, FileData,
      FileOk;
    OwnedUsed(v, bits, files, loose, s);
    FileTail(v, bits, files, loose, s);
    OwnedOf(v, s);
    DataInNodes(v, InodeAt(v, s), CountAt(v, s));
    OverwroteFile(v, s, w, offset, buf);
    forall t | t in files && t != s
      ensures Kept(v, w, t) && Stays(v, w, t)
    {
      OwnedUsed(v, bits, files, loose, t);
      OwnedApart(v, bits, files, loose, s, t);
      KeptOff(v, w, t, FileData(v, InodeAt(v, s), CountAt(v, s)));
      KeptStays(v, w, t);
    }
    FilesOkOf(v, bits, files, loose);
    FewerFiles(v, files, loose, files - {s}, loose);
    OthersApart(v, files, loose, s);
    AllBut(v, files, s);
    AllUsed(v, bits, files, loose);
    VolumeStep(v, files, loose, w, bits, loose, s, Owned(w, s));
  }

  lemma OverwroteFile(v: View, s: int, w: View, offset: nat, buf: seq<Byte>)
    requires FileWf(v, s) && TailZero(v, InodeAt(v, s))
    requires offset + |buf| <= InodeAt(v, s).length
    requires offset + |buf| <= 512 * CountAt(v, s) && CountAt(v, s) <= MAX_SECTORS
    requires Overwritten(v, w, InodeAt(v, s), CountAt(v, s), offset, buf)
    ensures InodeAt(w, s) == InodeAt(v, s) && FileWf(w, s) && Owned(w, s) == Owned(v, s) && TailZero(w, InodeAt(w, s))
    ensures Contents(w, s) == Splice(Contents(v, s), offset, buf)
  {
    DataInNodes(v, InodeAt(v, s), CountAt(v, s));
    hide FileOk, FileNodes, FileData, FileIndex, Raw, DecodeInode;
    assert w[s] == v[s];
    SectorsForBounds(InodeAt(v, s).length);
  }

  /** Cutting a file that has data down to length zero, with its blocks left in place, leaves no well-formed file. */
  lemma TruncatedBroken(v: View, d: InodeDisk, w: View)
    requires d.Fits() && 0 < d.length && FileOk(v, d, SectorsFor(d.length))
    ensures !FileOk(w, d.(length := 0), 0)
  {
    var n := SectorsFor(d.length);
    assert TreeOk(v, Roots(d, n)[0]);
    assert Roots(d.(length := 0), 0)[0] == Root(d.direct[0], 0, 0);
  }

  lemma TruncatedFile(v: View, s: int, w: View, d2: InodeDisk)
    requires FileWf(v, s) && InodeAt(v, s).length > 0 && |w| == |v|
    requires d2 == InodeAt(v, s).(length := 0)
    ensures InodeAt(w[s := EncodeInode(d2)], s) == d2
    ensures Contents(w[s := EncodeInode(d2)], s) == []
    ensures !FileWf(w[s := EncodeInode(d2)], s)
  {
    hide FileOk, FileNodes, EncodeInode, DecodeInode;
    InodeWritten(w, s, d2);
    TruncatedBroken(v, InodeAt(v, s), w[s := EncodeInode(d2)]);
  }

  // ----- creating a file

  /** md is the free-map file's sectors, or nothing while there is no such file yet. */
  ghost predicate MapOf(v: View, files: set<int>, md: set<int>) {
    if FREE_MAP in files then MapAt(v, md) else md == {}
  }

  lemma EmptyFile(v: View, bits: seq<bool>, isDir: bool, length: int, md: set<int>)
    requires md <= Used(bits)
    ensures FileOk(v, EmptyInode(isDir, length), 0)
    ensures FileNodes(v, EmptyInode(isDir, length), 0) == {} && FileIndex(v, EmptyInode(isDir, length), 0) == {}
    ensures Settled(v, bits, Roots(EmptyInode(isDir, length), 0), md)
  {
  }

  /** Reserving for a new inode and writing it to a loose sector makes that sector a file of zeros. */
  lemma CreatedVolume(v: View, bits: seq<bool>, files: set<int>, loose: set<int>, s: int, isDir: bool, length: nat,
                      w: View, bits2: seq<bool>, d2: InodeDisk, md: set<int>)
    requires VolumeOk(v, bits, files, loose) && s in loose && 0 <= s < |v|
    requires s == FREE_MAP ==> files == {}
    requires MapOf(v, files, md)
    requires d2.Fits() && d2.magic == INODE_MAGIC && d2.length == length
    requires Extended(v, bits, Roots(EmptyInode(isDir, length), 0), w, bits2, Roots(d2, SectorsFor(length)), md)
    requires FREE_MAP in files ==>
               && FileOk(w, InodeAt(v, FREE_MAP), CountAt(v, FREE_MAP))
               && FileNodes(w, InodeAt(v, FREE_MAP), CountAt(v, FREE_MAP)) == md
    ensures |w| == |v| && s !in files
    ensures VolumeOk(w[s := EncodeInode(d2)], bits2, files + {s}, loose - {s})
    ensures InodeAt(w[s := EncodeInode(d2)], s) == d2 && Contents(w[s := EncodeInode(d2)], s) == ZeroBytes(length)
    ensures AgreeOff(v, w[s := EncodeInode(d2)], Owned(w[s := EncodeInode(d2)], s) + md)
    ensures forall t :: t in files && t != FREE_MAP ==> Kept(v, w[s := EncodeInode(d2)], t)
    ensures FREE_MAP in files ==> Stays(v, w[s := EncodeInode(d2)], FREE_MAP) && MapAt(w[s := EncodeInode(d2)], md)
  {
    hide Used, FileOk, FileNodes, TailZero, Settled, Extended, EncodeInode, Roots, SectorsFor, AllOwned, FileIndex,
      Owned, FilesOk, Kept, Stays, EmptyInode;
    var d, g := EmptyInode(isDir, length), Gained(bits, bits2);
    var d0 := EmptyInode(isDir, 0);
    LooseNew(v, bits, files, loose, s);
    if FREE_MAP in files {
      OwnedUsed(v, bits, files, loose, FREE_MAP);
      OwnedOf(v, FREE_MAP);
    }
    EmptyFile(v, bits, isDir, length, md);
    EmptyFile(v, bits, isDir, 0, md);
    EmptyStart(v, bits, isDir, length, w, bits2, d2, md);
    SectorsForBounds(0);
    GrownFile(v, bits, s, d0, w, bits2, d2, md);
    var w2 := w[s := EncodeInode(d2)];
    var changed := g + md + {s};
    ExtendedChange(v, bits, d, 0, w, bits2, d2, md);
    GainedUsed(bits, bits2);
    AllUsed(v, bits, files, loose);
    assert AgreeOff(v, w2, changed);
    forall t | t in files
      ensures t != FREE_MAP ==> Kept(v, w2, t)
      ensures Stays(v, w2, t)
      ensures t == FREE_MAP ==> MapAt(w2, md)
    {
      LooseApart(v, bits, files, loose, s, t);
      OwnedUsed(v, bits, files, loose, t);
      if t == FREE_MAP {
        MapCountOk(w, InodeAt(v, FREE_MAP), CountAt(v, FREE_MAP));
        FileWfFacts(v, FREE_MAP);
        RawFrame(w, w2, InodeAt(v, FREE_MAP), CountAt(v, FREE_MAP));
        SameFileOk(w, w2, InodeAt(v, FREE_MAP), CountAt(v, FREE_MAP));
        MapStays(v, w2, changed, md);
      } else {
        if FREE_MAP in files {
          OwnedApart(v, bits, files, loose, FREE_MAP, t);
        }
        KeptOff(v, w2, t, changed);
        KeptStays(v, w2, t);
      }
    }
    FilesOkOf(v, bits, files, loose);
    var all := files + {s};
    assert all - {s} == files;
    LooseAll(v, files, loose);
    assert Used(bits2) == AllOwned(v, files) + loose + g;
    assert Owned(w2, s) == {s} + g;
    assert d2.length - d0.length == length by { EmptyLength(isDir, 0); }
    VolumeStep(v, all, loose, w2, bits2, loose - {s}, s, Owned(w2, s));
  }

  lemma EmptyLength(isDir: bool, length: int)
    ensures EmptyInode(isDir, length).length == length
    ensures 0 <= length <= MAX_LENGTH ==> EmptyInode(isDir, length).Fits()
  {
  }

  lemma EmptyStart(v: View, bits: seq<bool>, isDir: bool, length: int, w: View, bits2: seq<bool>, d2: InodeDisk,
                   md: set<int>)
    requires d2.Fits()
    requires Extended(v, bits, Roots(EmptyInode(isDir, length), 0), w, bits2, Roots(d2, SectorsFor(d2.length)), md)
    ensures Extended(v, bits, Roots(EmptyInode(isDir, 0), SectorsFor(0)), w, bits2, Roots(d2, SectorsFor(d2.length)),
                     md)
    ensures TailZero(v, EmptyInode(isDir, 0)) && EmptyInode(isDir, 0).Fits() && EmptyInode(isDir, 0).length == 0
    ensures Bytes(v, EmptyInode(isDir, 0)) == []
  {
    hide ForestGrew, ForestIndex, Used;
    assert Roots(EmptyInode(isDir, length), 0) == Roots(EmptyInode(isDir, 0), 0);
  }

  lemma SameFileOk(v: View, w: View, d: InodeDisk, n: nat)
    requires |d.direct| == DIRECT_BLOCKS && n <= MAX_SECTORS && SameFile(v, w, d, n)
    ensures FileOk(w, d, n) && FileNodes(w, d, n) == FileNodes(v, d, n)
  {
  }

  lemma LooseNew(v: View, bits: seq<bool>, files: set<int>, loose: set<int>, s: int)
    requires VolumeOk(v, bits, files, loose) && s in loose
    ensures s !in files && s in Used(bits)
  {
    hide FileWf, TailZero;
    assert s in Owned(v, s);
  }

  lemma LooseApart(v: View, bits: seq<bool>, files: set<int>, loose: set<int>, s: int, t: int)
    requires VolumeOk(v, bits, files, loose) && s in loose && t in files
    ensures s !in Owned(v, t)
  {
    hide FileWf, TailZero;
  }

  lemma LooseAll(v: View, files: set<int>, loose: set<int>)
    requires FilesOk(v, files, loose)
    ensures loose !! AllOwned(v, files)
  {
    forall x | x in AllOwned(v, files)
      ensures x !in loose
    {
      var t :| t in files && x in Owned(v, t);
      assert Owned(v, t) !! loose;
    }
  }

  // ----- removing a file

  /** A change of the free-map file's sectors alone, after which that file's blocks are still in place. */
  lemma MapRewritten(v: View, bits: seq<bool>, files: set<int>, loose: set<int>, w: View, md: set<int>)
    requires VolumeOk(v, bits, files, loose) && FREE_MAP in files && MapAt(v, md)
    requires AgreeOff(v, w, md)
    requires FileOk(w, InodeAt(v, FREE_MAP), CountAt(v, FREE_MAP))
    requires FileNodes(w, InodeAt(v, FREE_MAP), CountAt(v, FREE_MAP)) == md
    ensures forall t :: t in files ==> Stays(v, w, t)
    ensures forall t :: t in files && t != FREE_MAP ==> Kept(v, w, t)
    ensures MapAt(w, md)
  {
    hide Used, FileOk, FileNodes, TailZero, AllOwned, Owned, FilesOk, Kept, Stays;
    OwnedUsed(v, bits, files, loose, FREE_MAP);
    OwnedOf(v, FREE_MAP);
    FileWfFacts(v, FREE_MAP);
    MapIs(v, md);
    MapStays(v, w, md, md);
    forall t | t in files && t != FREE_MAP
      ensures Kept(v, w, t) && Stays(v, w, t)
    {
      OwnedUsed(v, bits, files, loose, t);
      OwnedApart(v, bits, files, loose, FREE_MAP, t);
      KeptOff(v, w, t, md);
      KeptStays(v, w, t);
    }
  }

  /** Giving back the inode sector and all blocks of a file leaves the other files in order. */
  lemma RemovedVolume(v: View, bits: seq<bool>, files: set<int>, s: int, w: View, bits2: seq<bool>, md: set<int>)
    requires VolumeOk(v, bits, files, {}) && s in files && s != FREE_MAP && FREE_MAP in files && MapAt(v, md)
    requires Used(bits2) == Used(bits) - Owned(v, s)
    requires AgreeOff(v, w, md)
    requires FileOk(w, InodeAt(v, FREE_MAP), CountAt(v, FREE_MAP))
    requires FileNodes(w, InodeAt(v, FREE_MAP), CountAt(v, FREE_MAP)) == md
    ensures VolumeOk(w, bits2, files - {s}, {})
    ensures forall t :: t in files - {s} && t != FREE_MAP ==> Kept(v, w, t)
    ensures Stays(v, w, FREE_MAP) && MapAt(w, md)
  {
    hide Used, FileOk, FileNodes, TailZero, AllOwned, Owned, FilesOk, Kept, Stays, VolumeOk, FileWf;
    MapRewritten(v, bits, files, {}, w, md);
    FilesOkOf(v, bits, files, {});
    OthersApart(v, files, {}, s);
    AllBut(v, files, s);
    AllUsed(v, bits, files, {});
    FewerFiles(v, files, {}, files - {s}, {});
    VolumeStays(v, files - {s}, {}, w, bits2);
  }

  lemma VolumeStays(v: View, files: set<int>, loose: set<int>, w: View, bits2: seq<bool>)
    requires FilesOk(v, files, {}) && Used(bits2) == AllOwned(v, files) + loose
    requires forall t :: t in files ==> Stays(v, w, t) && Owned(v, t) !! loose
    ensures VolumeOk(w, bits2, files, loose)
  {
    hide FileWf, TailZero, Used, Owned, Contents, InodeAt;
    forall t | t in files
      ensures FileWf(w, t) && (t != FREE_MAP ==> TailZero(w, InodeAt(w, t))) && Owned(w, t) == Owned(v, t)
    {
      assert Stays(v, w, t);
    }
    SameOwned(v, w, files);
  }

  // ----- taking a sector that is not yet part of a file

  lemma TakenVolume(v: View, bits: seq<bool>, files: set<int>, x: int, w: View, bits2: seq<bool>, md: set<int>)
    requires VolumeOk(v, bits, files, {}) && FREE_MAP in files && MapAt(v, md)
    requires x !in Used(bits) && Used(bits2) == Used(bits) + {x}
    requires AgreeOff(v, w, md)
    requires FileOk(w, InodeAt(v, FREE_MAP), CountAt(v, FREE_MAP))
    requires FileNodes(w, InodeAt(v, FREE_MAP), CountAt(v, FREE_MAP)) == md
    ensures VolumeOk(w, bits2, files, {x})
    ensures forall t :: t in files && t != FREE_MAP ==> Kept(v, w, t)
    ensures Stays(v, w, FREE_MAP) && MapAt(w, md)
  {
    hide Used, FileOk, FileNodes, TailZero, AllOwned, Owned, FilesOk, Kept, Stays, VolumeOk, FileWf;
    MapRewritten(v, bits, files, {}, w, md);
    forall t | t in files
      ensures x !in Owned(v, t)
    {
      OwnedUsed(v, bits, files, {}, t);
    }
    FilesOkOf(v, bits, files, {});
    AllUsed(v, bits, files, {});
    VolumeStays(v, files, {x}, w, bits2);
  }

  /** Giving a loose sector back. */
  lemma FreedVolume(v: View, bits: seq<bool>, files: set<int>, x: int, w: View, bits2: seq<bool>, md: set<int>)
    requires VolumeOk(v, bits, files, {x}) && FREE_MAP in files && MapAt(v, md)
    requires Used(bits2) == Used(bits) - {x}
    requires AgreeOff(v, w, md)
    requires FileOk(w, InodeAt(v, FREE_MAP), CountAt(v, FREE_MAP))
    requires FileNodes(w, InodeAt(v, FREE_MAP), CountAt(v, FREE_MAP)) == md
    ensures VolumeOk(w, bits2, files, {})
    ensures Stays(v, w, FREE_MAP)
  {
    hide Used, FileOk, FileNodes, TailZero, AllOwned, Owned, FilesOk, Kept, Stays, VolumeOk, FileWf;
    MapRewritten(v, bits, files, {x}, w, md);
    FilesOkOf(v, bits, files, {x});
    AllUsed(v, bits, files, {x});
    LooseAll(v, files, {x});
    FewerFiles(v, files, {x}, files, {});
    VolumeStays(v, files, {}, w, bits2);
  }

  /** A loose sector is not part of the free-map file. */
  lemma LooseMap(v: View, bits: seq<bool>, files: set<int>, loose: set<int>, s: int, md: set<int>)
    requires VolumeOk(v, bits, files, loose) && s in loose && MapOf(v, files, md)
    ensures s !in md
  {
    hide FileWf, TailZero, FileNodes, Used;
    if FREE_MAP in files {
      LooseApart(v, bits, files, loose, s, FREE_MAP);
    }
  }

  lemma EmptyIsDir(isDir: bool, length: int)
    ensures EmptyInode(isDir, length).isDir == isDir && EmptyInode(isDir, length).magic == INODE_MAGIC
  {
  }

  // ----- when space runs out

  lemma OwnIndex(v: View, s: int)
    ensures FileIndex(v, InodeAt(v, s), CountAt(v, s)) <= Owned(v, s)
  {
    FileIndexInNodes(v, InodeAt(v, s), CountAt(v, s));
  }

  /** Even a reservation that fails, for file s or for a new file, leaves every other ordinary file alone. */
  lemma StuckKept(v: View, bits: seq<bool>, files: set<int>, loose: set<int>, s: int, t: int, ix: set<int>,
                  w: View, bits2: seq<bool>, md: set<int>)
    requires VolumeOk(v, bits, files, loose) && FREE_MAP in files && MapAt(v, md)
    requires t in files && t != s && t != FREE_MAP
    requires ix == {} || (s in files && ix <= Owned(v, s))
    requires Stuck(v, bits, ix, w, bits2, md)
    ensures Kept(v, w, t)
  {
    hide FileNodes, Used, TailZero, InodeAt, CountAt, FileWf, Kept, Owned;
    OwnedUsed(v, bits, files, loose, t);
    OwnedUsed(v, bits, files, loose, FREE_MAP);
    OwnedOf(v, FREE_MAP);
    MapIs(v, md);
    OwnedApart(v, bits, files, loose, FREE_MAP, t);
    if s in files {
      OwnedApart(v, bits, files, loose, s, t);
    }
    KeptOff(v, w, t, Gained(bits, bits2) + ix + md + {0});
  }

  lemma StuckMarked(v: View, bits: seq<bool>, ix: set<int>, w: View, bits2: seq<bool>, md: set<int>, x: int)
    requires Stuck(v, bits, ix, w, bits2, md) && x in Used(bits)
    ensures 0 <= x < |bits2| == |bits| && bits2[x]
  {
    assert x in Used(bits2);
  }

  /** A change of the free-map file's sectors alone comes on top of an earlier change that kept file t. */
  lemma KeptPast(v: View, bits: seq<bool>, files: set<int>, loose: set<int>, t: int, w: View, w2: View, md: set<int>)
    requires VolumeOk(v, bits, files, loose) && FREE_MAP in files && MapAt(v, md)
    requires t in files && t != FREE_MAP
    requires Kept(v, w, t) && AgreeOff(w, w2, md)
    ensures Kept(v, w2, t)
  {
    hide FileNodes, Used, TailZero, InodeAt, CountAt, FileWf, Owned, Contents;
    OwnedApart(v, bits, files, loose, FREE_MAP, t);
    OwnedOf(v, FREE_MAP);
    MapIs(v, md);
    KeptOff(w, w2, t, md);
    KeptTrans(v, w, w2, t);
  }

  // ----- the two steps of a removal

  lemma SettledFacts(v: View, bits: seq<bool>, d: InodeDisk, n: nat, md: set<int>)
    requires FileOk(v, d, n) && Settled(v, bits, Roots(d, n), md)
    ensures FileNodes(v, d, n) <= Used(bits) && FileNodes(v, d, n) !! md
  {
  }

  lemma UsedBit(bits: seq<bool>, x: int)
    requires x in Used(bits)
    ensures 0 <= x < |bits| && bits[x]
  {
  }

  /** Releasing the inode's sector leaves the blocks of the file readable. */
  lemma AfterRelease(v: View, d: InodeDisk, n: nat, w: View, md: set<int>)
    requires FileOk(v, d, n) && AgreeOff(v, w, md) && md !! FileNodes(v, d, n)
    ensures FileOk(w, d, n) && FileNodes(w, d, n) == FileNodes(v, d, n)
  {
    MapCountOk(v, d, n);
    hide FileOk, FileNodes, Raw;
    RawFrame(v, w, d, n);
  }

  lemma ReleasedVolume(v: View, bits: seq<bool>, s: int, w: View, bits1: seq<bool>, w2: View, bits2: seq<bool>,
                       md: set<int>)
    requires AgreeOff(v, w, md) && s !in FileNodes(v, InodeAt(v, s), CountAt(v, s))
    requires Used(bits1) == Used(bits) - {s} && Free(bits1) == Free(bits) + 1
    requires Released(w, bits1, FileNodes(v, InodeAt(v, s), CountAt(v, s)), FileSize(CountAt(v, s)), w2, bits2, md)
    ensures Used(bits2) == Used(bits) - Owned(v, s)
    ensures Free(bits2) == Free(bits) + 1 + FileSize(CountAt(v, s))
    ensures AgreeOff(v, w2, md)
  {
    hide Used, Free, FileNodes, FileSize;
    OwnedOf(v, s);
  }

  // ----- formatting

  lemma FreshVolume(v: View, bits: seq<bool>)
    requires Used(bits) == {0, 1}
    ensures VolumeOk(v, bits, {}, {0, 1}) && MapOf(v, {}, {})
  {
    assert AllOwned(v, {}) == {};
  }

  /** Writing the free map to its file, when that is the only file. */
  lemma MapWritten(v: View, bits: seq<bool>, loose: set<int>, w: View, md: set<int>)
    requires VolumeOk(v, bits, {FREE_MAP}, loose) && MapAt(v, md)
    requires AgreeOff(v, w, md)
    requires FileOk(w, InodeAt(v, FREE_MAP), CountAt(v, FREE_MAP))
    requires FileNodes(w, InodeAt(v, FREE_MAP), CountAt(v, FREE_MAP)) == md
    ensures VolumeOk(w, bits, {FREE_MAP}, loose)
    ensures InodeAt(w, FREE_MAP) == InodeAt(v, FREE_MAP) && MapAt(w, md)
  {
    hide Used, FileOk, FileNodes, TailZero, AllOwned, Owned, FilesOk, Stays;
    OwnedUsed(v, bits, {FREE_MAP}, loose, FREE_MAP);
    FileWfFacts(v, FREE_MAP);
    MapIs(v, md);
    MapStays(v, w, md, md);
    StaysFacts(v, w, FREE_MAP);
    FilesOkOf(v, bits, {FREE_MAP}, loose);
    OthersApart(v, {FREE_MAP}, loose, FREE_MAP);
    AllBut(v, {FREE_MAP}, FREE_MAP);
    AllUsed(v, bits, {FREE_MAP}, loose);
    FewerFiles(v, {FREE_MAP}, loose, {FREE_MAP} - {FREE_MAP}, loose);
    MapStaysWf(v, w);
    VolumeStep(v, {FREE_MAP}, loose, w, bits, loose, FREE_MAP, Owned(w, FREE_MAP));
  }

  lemma MapStaysWf(v: View, w: View)
    requires Stays(v, w, FREE_MAP)
    ensures FileWf(w, FREE_MAP)
  {
  }

  /** What a successful reservation gives the file: the data sectors it had stay where they were and keep their bytes,
      every further one is new and zero, all are apart, and all that was marked is now part of the file. */
  lemma ReservedMeaning(v0: View, bits0: seq<bool>, d0: InodeDisk, n: nat, v: View, bits: seq<bool>, d: InodeDisk,
                        m: nat, md: set<int>)
    requires |d0.direct| == DIRECT_BLOCKS && |d.direct| == DIRECT_BLOCKS && n <= m <= MAX_SECTORS
    requires FileOk(v0, d0, n) && Settled(v0, bits0, Roots(d0, n), md)
    requires Reserved(v0, bits0, d0, n, v, bits, d, m, md)
    ensures FileOk(v, d, m) && |v| == |v0|
    ensures forall i :: 0 <= i < n ==> FileLeaf(v, d, m, i) == FileLeaf(v0, d0, n, i)
                                       && 0 < FileLeaf(v, d, m, i) < |v|
                                       && v[FileLeaf(v, d, m, i)] == v0[FileLeaf(v, d, m, i)]
    ensures forall i :: n <= i < m ==> FileLeaf(v, d, m, i) as int in Gained(bits0, bits)
                                       && 0 < FileLeaf(v, d, m, i) < |v| && v[FileLeaf(v, d, m, i)] == Zeros()
    ensures forall i, j :: 0 <= i < j < m ==> FileLeaf(v, d, m, i) != FileLeaf(v, d, m, j)
    ensures FileNodes(v, d, m) == FileNodes(v0, d0, n) + Gained(bits0, bits)
    ensures Free(bits) + FileSize(m) == Free(bits0) + FileSize(n)
  {
    hide FileOk, FileLeaf, FileNodes, FileIndex, FileData, ForestGrew, Used, Free, FileSize, Settled, Extended, Raw,
      Roots;
    DataKept(v0, bits0, d0, n, v, bits, d, m, md);
    GrownNodes(v0, bits0, d0, n, v, bits, d, m, md);
    RawGrow(v0, d0, n, v, d, m, Gained(bits0, bits));
    forall i | 0 <= i < n
      ensures 0 < FileLeaf(v, d, m, i) < |v| && v[FileLeaf(v, d, m, i)] == v0[FileLeaf(v, d, m, i)]
    {
      FileLeafOk(v0, d0, n, i);
      LeafInData(v0, d0, n, i);
    }
    forall i | n <= i < m
      ensures FileLeaf(v, d, m, i) as int in Gained(bits0, bits)
      ensures 0 < FileLeaf(v, d, m, i) < |v| && v[FileLeaf(v, d, m, i)] == Zeros()
    {
      FreshFileLeaf(v0, d0, n, v, d, m, Gained(bits0, bits), i);
      FileLeafOk(v, d, m, i);
    }
    forall i, j | 0 <= i < j < m
      ensures FileLeaf(v, d, m, i) != FileLeaf(v, d, m, j)
    {
      FileLeavesApart(v, d, m, i, j);
    }
  }

  /** Releasing a file undoes its reservation: what was marked for it before, and all that was reserved since, is free
      again, and a file that had no blocks before leaves the free map as it was. */
  lemma ReleaseUndoes(v0: View, bits0: seq<bool>, d0: InodeDisk, n: nat, v: View, bits: seq<bool>, d: InodeDisk, m: nat,
                      w: View, bits2: seq<bool>, md: set<int>)
    requires |d0.direct| == DIRECT_BLOCKS && |d.direct| == DIRECT_BLOCKS
    requires Settled(v0, bits0, Roots(d0, n), md)
    requires Reserved(v0, bits0, d0, n, v, bits, d, m, md)
    requires Released(v, bits, FileNodes(v, d, m), FileSize(m), w, bits2, md)
    ensures Used(bits2) == Used(bits0) - FileNodes(v0, d0, n)
    ensures n == 0 ==> bits2 == bits0
  {
    hide TreeOk, Nodes, Index, Grew, Used, Free, FileSize, ForestOk, ForestIndex;
    var g := Gained(bits0, bits);
    assert ForestNodes(v, Roots(d, m)) == ForestNodes(v0, Roots(d0, n)) + g by { hide ForestNodes; }
    assert FileNodes(v, d, m) == FileNodes(v0, d0, n) + g;
    if n == 0 {
      NoNodes(v0, d0);
      UsedInjective(bits2, bits0);
    }
  }

  lemma NoNodes(v: View, d: InodeDisk)
    requires |d.direct| == DIRECT_BLOCKS
    ensures FileNodes(v, d, 0) == {}
  {
    hide Nodes;
    forall j | 0 <= j < |Roots(d, 0)|
      ensures Nodes(v, Roots(d, 0)[j]) == {}
    {
      EmptyTree(v, Roots(d, 0)[j]);
    }
  }
}
