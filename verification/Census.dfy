/** Counting sectors: the free ones and the sizes of all files add up to the whole device. */
module Census {
  import opened BlockTree
  import opened DiskFormat
  import opened FileTree
  import opened Accounting
  import opened Reserving
  import opened Releasing
  import opened Volumes
  import opened VolumeSteps

  lemma BeforeStep(v: View, f: seq<Root>, i: nat)
    requires i < |f| && ForestOk(v, f)
    ensures NodesBefore(v, f, i + 1) == NodesBefore(v, f, i) + Nodes(v, f[i])
    ensures NodesBefore(v, f, i) !! Nodes(v, f[i])
    ensures |NodesBefore(v, f, i + 1)| == |NodesBefore(v, f, i)| + |Nodes(v, f[i])|
  {
    hide Nodes, TreeOk;
    forall x | x in NodesBefore(v, f, i + 1)
      ensures x in NodesBefore(v, f, i) || x in Nodes(v, f[i])
    {
      var j :| 0 <= j < i + 1 && x in Nodes(v, f[j]);
    }
    forall x | x in NodesBefore(v, f, i)
      ensures x !in Nodes(v, f[i]) && x in NodesBefore(v, f, i + 1)
    {
      var j :| 0 <= j < i && x in Nodes(v, f[j]);
      assert Nodes(v, f[j]) !! Nodes(v, f[i]);
    }
    assert forall x :: x in Nodes(v, f[i]) ==> x in NodesBefore(v, f, i + 1);
  }

  lemma BeforeNone(v: View, f: seq<Root>)
    ensures NodesBefore(v, f, 0) == {}
  {
  }

  /** The trees below the first i entries of an index block that has n data sectors below it. */
  lemma {:induction false} EntriesCount(v: View, level: nat, n: nat, f: seq<Root>, i: nat)
    requires 1 <= level <= 2 && n <= Cap(level) && i <= PTRS == |f| && ForestOk(v, f)
    requires forall j :: 0 <= j < PTRS ==> f[j].level == level - 1 && f[j].count == Portion(n, j, level - 1)
    ensures |NodesBefore(v, f, i)| == KidsSize(level, Covered(level, n, i))
    decreases level, 0, i
  {
    hide Nodes, NodesBefore, TreeSize, Covered, Portion;
    if i == 0 {
      BeforeNone(v, f);
      CoveredStep(level, n, 0);
      KidsSizeBounds(level, 0);
    } else {
      EntriesCount(v, level, n, f, i - 1);
      BeforeStep(v, f, i - 1);
      NodesCount(v, f[i - 1]);
      CoveredStep(level, n, i - 1);
    }
  }

  /** A tree of k data sectors consists of exactly TreeSize sectors. */
  lemma {:induction false} NodesCount(v: View, r: Root)
    requires TreeOk(v, r)
    ensures |Nodes(v, r)| == TreeSize(r.level, r.count)
    decreases r.level, 1
  {
    if r.count == 0 {
      EmptyTree(v, r);
      TreeSizeNone(r.level);
    } else if r.level > 0 {
      var f := Kids(v, r);
      KidsForest(v, r);
      TreeSizeOf(r.level, r.count);
      EntriesCount(v, r.level, r.count, f, PTRS);
      ReleaseAll(v, f, PTRS);
      CoveredStep(r.level, r.count, 0);
    }
  }

  lemma {:induction false} PointersCount(v: View, d: InodeDisk, n: nat, j: nat)
    requires FileOk(v, d, n) && j <= POINTERS
    ensures |NodesBefore(v, Roots(d, n), j)| == PointersSize(n, j)
  {
    hide Nodes, NodesBefore, TreeOk, TreeSize;
    var f := Roots(d, n);
    if j == 0 {
      BeforeNone(v, f);
      PointersEnds(d, n, n);
    } else {
      PointersCount(v, d, n, j - 1);
      BeforeStep(v, f, j - 1);
      NodesCount(v, f[j - 1]);
      PointersSizeStep(n, j - 1);
    }
  }

  /** A file of n data sectors consists of exactly S(n) sectors, beside its inode. */
  lemma FileCount(v: View, d: InodeDisk, n: nat)
    requires FileOk(v, d, n)
    ensures |FileNodes(v, d, n)| == FileSize(n)
  {
    PointersCount(v, d, n, POINTERS);
    ReleaseAll(v, Roots(d, n), POINTERS);
    PointersSizeAll(n);
  }

  lemma {:induction false} UsedCount(bits: seq<bool>)
    ensures Free(bits) + |Used(bits)| == |bits|
  {
    if bits == [] {
      assert Used(bits) == {};
    } else {
      var last := |bits| - 1;
      var b := bits[..last];
      UsedCount(b);
      assert forall x :: 0 <= x < last ==> b[x] == bits[x];
      assert Used(bits) == Used(b) + if bits[last] then {last} else {};
    }
  }

  /** The sectors of the file whose inode is in sector s, index blocks and the inode included. */
  function Price(v: View, s: int): nat {
    1 + FileSize(CountAt(v, s))
  }

  lemma NoneIn(files: set<int>)
    ensures (forall s :: s !in files) ==> files == {}
  {
    if forall s :: s !in files {
      assert files == {};
    }
  }

  ghost function Pick(files: set<int>): (s: int)
    requires files != {}
    ensures s in files
  {
    NoneIn(files);
    var s :| s in files;
    s
  }

  ghost function Total(v: View, files: set<int>): nat {
    if files == {} then 0 else Price(v, Pick(files)) + Total(v, files - {Pick(files)})
  }

  /** It does not matter which file is counted first. */
  lemma {:induction false} TotalBut(v: View, files: set<int>, s: int)
    requires s in files
    ensures Total(v, files) == Price(v, s) + Total(v, files - {s})
  {
    hide Price;
    var t := Pick(files);
    if t != s {
      TotalBut(v, files - {t}, s);
      TotalBut(v, files - {s}, t);
      assert files - {t} - {s} == files - {s} - {t};
    }
  }

  /** Only the lengths of the files matter. */
  lemma {:induction false} SameTotal(v: View, w: View, files: set<int>)
    requires forall t :: t in files ==> CountAt(w, t) == CountAt(v, t)
    ensures Total(w, files) == Total(v, files)
  {
    hide CountAt, FileSize;
    if files != {} {
      SameTotal(v, w, files - {Pick(files)});
    }
  }

  lemma OwnedCount(v: View, s: int)
    requires FileWf(v, s)
    ensures |Owned(v, s)| == Price(v, s)
  {
    FileCount(v, InodeAt(v, s), CountAt(v, s));
    hide FileOk, FileNodes, FileSize;
  }

  lemma {:induction false} AllCount(v: View, files: set<int>, loose: set<int>)
    requires FilesOk(v, files, loose)
    ensures |AllOwned(v, files)| == Total(v, files)
  {
    hide FileWf, TailZero, Owned, Price;
    if files == {} {
      assert AllOwned(v, files) == {};
    } else {
      var s := Pick(files);
      FewerFiles(v, files, loose, files - {s}, loose);
      AllCount(v, files - {s}, loose);
      AllBut(v, files, s);
      OthersApart(v, files, loose, s);
      OwnedCount(v, s);
    }
  }

  lemma UnionCount(a: set<int>, b: set<int>)
    requires a !! b
    ensures |a + b| == |a| + |b|
  {
  }

  /** Conservation: in a volume in order the free sectors, the loose ones and the files make up every sector. */
  lemma Conservation(v: View, bits: seq<bool>, files: set<int>, loose: set<int>)
    requires VolumeOk(v, bits, files, loose)
    ensures Free(bits) + |loose| + Total(v, files) == |bits|
  {
    hide FileWf, TailZero, Owned, Used, Free, Total;
    AllCount(v, files, loose);
    LooseAll(v, files, loose);
    UnionCount(AllOwned(v, files), loose);
    UsedCount(bits);
  }

  /** A volume whose files keep their lengths has as many free and loose sectors as before. */
  lemma SameCensus(v: View, bits: seq<bool>, loose: set<int>, files: set<int>,
                   w: View, bits2: seq<bool>, loose2: set<int>)
    requires VolumeOk(v, bits, files, loose) && VolumeOk(w, bits2, files, loose2) && |bits2| == |bits|
    requires forall t :: t in files ==> InodeAt(w, t) == InodeAt(v, t)
    ensures Free(bits2) + |loose2| == Free(bits) + |loose|
  {
    hide VolumeOk, Free, Total, InodeAt;
    Conservation(v, bits, files, loose);
    Conservation(w, bits2, files, loose2);
    SameTotal(v, w, files);
  }

  /** A growth of file s that ran out of space keeps the other files, and of s the inode on the device and every byte.
      If the same files are nevertheless in order afterwards, no sector was marked. */
  lemma RefusedVolume(v: View, bits: seq<bool>, files: set<int>, s: int, w: View, bits2: seq<bool>, md: set<int>)
    requires VolumeOk(v, bits, files, {}) && s in files && s != FREE_MAP && FREE_MAP in files && MapAt(v, md)
    requires Stuck(v, bits, FileIndex(v, InodeAt(v, s), CountAt(v, s)), w, bits2, md)
    ensures InodeAt(w, s) == InodeAt(v, s) && Contents(w, s) == Contents(v, s)
    ensures forall t :: t in files && t != s && t != FREE_MAP ==> Kept(v, w, t)
    ensures VolumeOk(w, bits2, files, {}) && InodeAt(w, FREE_MAP) == InodeAt(v, FREE_MAP) ==> Free(bits2) == Free(bits)
  {
    hide VolumeOk, Used, Free, FileNodes, FileIndex, MapAt, Kept, FileOk, Owned, SectorsFor, Contents;
    OwnIndex(v, s);
    forall t | t in files && t != s && t != FREE_MAP
      ensures Kept(v, w, t) && InodeAt(w, t) == InodeAt(v, t)
    {
      StuckKept(v, bits, files, {}, s, t, FileIndex(v, InodeAt(v, s), CountAt(v, s)), w, bits2, md);
      KeptStays(v, w, t);
      StaysFacts(v, w, t);
    }
    StuckInode(v, bits, files, s, w, bits2, md);
    hide InodeAt, Stuck;
    if VolumeOk(w, bits2, files, {}) && InodeAt(w, FREE_MAP) == InodeAt(v, FREE_MAP) {
      SameCensus(v, bits, {}, files, w, bits2, {});
    }
  }

  lemma StuckInode(v: View, bits: seq<bool>, files: set<int>, s: int, w: View, bits2: seq<bool>, md: set<int>)
    requires VolumeOk(v, bits, files, {}) && s in files && s != FREE_MAP && FREE_MAP in files && MapAt(v, md)
    requires Stuck(v, bits, FileIndex(v, InodeAt(v, s), CountAt(v, s)), w, bits2, md)
    ensures InodeAt(w, s) == InodeAt(v, s) && |bits2| == |bits| && Contents(w, s) == Contents(v, s)
  {
    hide VolumeOk, Used, Free, FileNodes, FileIndex, DecodeInode, MapAt, FileOk, Owned, SectorsFor, Raw, PointersStay;
    OwnedUsed(v, bits, files, {}, s);
    FileWfFacts(v, s);
    FileSettled(v, bits, files, {}, s, md);
    FileIndexInNodes(v, InodeAt(v, s), CountAt(v, s));
    SettledFacts(v, bits, InodeAt(v, s), CountAt(v, s), md);
    ZeroApart(v, InodeAt(v, s), CountAt(v, s));
    RawStays(v, w, InodeAt(v, s), CountAt(v, s),
             Gained(bits, bits2) + FileIndex(v, InodeAt(v, s), CountAt(v, s)) + md + {0});
  }

  lemma ZeroApart(v: View, d: InodeDisk, n: nat)
    requires FileOk(v, d, n)
    ensures |d.direct| == DIRECT_BLOCKS && 0 !in FileNodes(v, d, n)
  {
    hide FileNodes, ForestOk;
    if 0 in FileNodes(v, d, n) {
      FileNodesOnDevice(v, d, n, 0);
    }
  }
}
