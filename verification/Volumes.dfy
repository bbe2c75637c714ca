/** The whole device: which file owns which sector, and what each file contains. */
module Volumes {
  import opened Sectors
  import opened DiskFormat
  import opened BlockTree
  import opened FileTree
  import opened FileBytes
  import opened Accounting

  /** FREE_MAP_SECTOR, the sector of the free-map file's inode */
  const FREE_MAP: int := 0

  function InodeAt(v: View, s: int): (d: InodeDisk)
    ensures |d.direct| == DIRECT_BLOCKS
  {
    DecodeInode(if 0 <= s < |v| then v[s] else Zeros())
  }

  function CountAt(v: View, s: int): nat {
    SectorsFor(InodeAt(v, s).length)
  }

  /** The sectors of the file whose inode is in sector s: the inode, its index blocks and its data. */
  ghost function Owned(v: View, s: int): set<int> {
    {s} + FileNodes(v, InodeAt(v, s), CountAt(v, s))
  }

  ghost function AllOwned(v: View, files: set<int>): set<int> {
    set s, x | s in files && x in Owned(v, s) :: x
  }

  /** Sector s holds an inode, with its magic number, whose blocks are well formed and do not include s itself. */
  ghost predicate FileWf(v: View, s: int) {
    && 0 <= s < |v|
    && InodeAt(v, s).Fits()
    && InodeAt(v, s).magic == INODE_MAGIC
    && FileOk(v, InodeAt(v, s), CountAt(v, s))
    && s !in FileNodes(v, InodeAt(v, s), CountAt(v, s))
  }

  /** The bytes past the end of the file in its last sector are zero, so that growing the file shows zeros. */
  ghost predicate TailZero(v: View, d: InodeDisk) {
    && d.Fits()
    && SectorsFor(d.length) <= MAX_SECTORS
    && forall k :: d.length <= k < 512 * SectorsFor(d.length) ==> Raw(v, d, SectorsFor(d.length))[k] == 0
  }

  /** Contents of the file whose inode is in sector s. */
  function Contents(v: View, s: int): seq<Byte> {
    if InodeAt(v, s).Fits() then Bytes(v, InodeAt(v, s)) else []
  }

  /** The files are well formed and no sector belongs to two of them, or to one of them and the loose ones. */
  ghost predicate FilesOk(v: View, files: set<int>, loose: set<int>) {
    && (forall s :: s in files ==> FileWf(v, s))
    && (forall s :: s in files && s != FREE_MAP ==> TailZero(v, InodeAt(v, s)))
    && (forall s, t :: s in files && t in files && s != t ==> Owned(v, s) !! Owned(v, t))
    && (forall s :: s in files ==> Owned(v, s) !! loose)
  }

  /** Every marked sector has exactly one owner: one inode, one index or data slot of one file, or it is loose,
      that is, allocated but not yet part of a file. */
  ghost predicate VolumeOk(v: View, bits: seq<bool>, files: set<int>, loose: set<int>) {
    && FilesOk(v, files, loose)
    && Used(bits) == AllOwned(v, files) + loose
  }

  /** From image v to image w file t stayed on the sectors it was on; the bytes of the free-map file may change. */
  ghost predicate Stays(v: View, w: View, t: int) {
    && InodeAt(w, t) == InodeAt(v, t)
    && Owned(w, t) == Owned(v, t)
    && FileWf(w, t)
    && (t != FREE_MAP && TailZero(v, InodeAt(v, t)) ==> TailZero(w, InodeAt(w, t)))
  }

  /** It also kept every byte of every sector it owns, inode and index blocks included, and so its contents. */
  ghost predicate Kept(v: View, w: View, t: int) {
    && Stays(v, w, t)
    && |w| == |v| && (forall x :: x in Owned(v, t) && 0 <= x < |v| ==> w[x] == v[x])
    && Contents(w, t) == Contents(v, t)
  }

  lemma KeptOff(v: View, w: View, t: int, changed: set<int>)
    requires FileWf(v, t) && AgreeOff(v, w, changed) && changed !! Owned(v, t)
    ensures Kept(v, w, t)
  {
    hide FileOk, FileNodes, FileIndex, FileData, Raw, DecodeInode;
    var d, n := InodeAt(v, t), CountAt(v, t);
    assert InodeAt(w, t) == d by { assert t in Owned(v, t); }
    RawFrame(v, w, d, n);
  }

  lemma KeptTrans(u: View, v: View, w: View, t: int)
    requires Kept(u, v, t) && Kept(v, w, t)
    ensures Kept(u, w, t)
  {
    hide FileWf, TailZero, Contents, Owned, InodeAt;
  }

  lemma StaysFacts(v: View, w: View, t: int)
    requires Stays(v, w, t)
    ensures InodeAt(w, t) == InodeAt(v, t) && Owned(w, t) == Owned(v, t)
  {
  }

  lemma ContentsSize(v: View, s: int)
    requires FileWf(v, s)
    ensures |Contents(v, s)| == InodeAt(v, s).length
  {
  }

  lemma AllKept(v: View, bits: seq<bool>, files: set<int>, loose: set<int>)
    requires VolumeOk(v, bits, files, loose)
    ensures forall t :: t in files ==> Kept(v, v, t)
  {
    hide FileOk, FileNodes, Raw, DecodeInode, Used, AllOwned;
  }

  lemma OwnedUsed(v: View, bits: seq<bool>, files: set<int>, loose: set<int>, s: int)
    requires VolumeOk(v, bits, files, loose) && s in files
    ensures Owned(v, s) <= Used(bits) && s in Owned(v, s)
    ensures FileWf(v, s)
  {
    hide FileWf, TailZero, Used;
  }

  lemma FileWfFacts(v: View, s: int)
    requires FileWf(v, s)
    ensures 0 <= s < |v| && InodeAt(v, s).Fits() && InodeAt(v, s).magic == INODE_MAGIC
    ensures FileOk(v, InodeAt(v, s), CountAt(v, s)) && s !in FileNodes(v, InodeAt(v, s), CountAt(v, s))
    ensures CountAt(v, s) <= MAX_SECTORS
  {
  }

  lemma OwnedApart(v: View, bits: seq<bool>, files: set<int>, loose: set<int>, s: int, t: int)
    requires VolumeOk(v, bits, files, loose) && s in files && t in files && s != t
    ensures Owned(v, s) !! Owned(v, t)
  {
    hide FileWf, TailZero, Used, Owned, AllOwned;
  }

  lemma InAll(v: View, files: set<int>, t: int)
    requires t in files
    ensures Owned(v, t) <= AllOwned(v, files)
  {
  }

  lemma FewerFiles(v: View, files: set<int>, loose: set<int>, files2: set<int>, loose2: set<int>)
    requires FilesOk(v, files, loose) && files2 <= files && loose2 <= loose
    ensures FilesOk(v, files2, loose2)
  {
    hide FileWf, TailZero, Owned;
  }

  lemma AllBut(v: View, files: set<int>, s: int)
    requires s in files
    ensures AllOwned(v, files) == AllOwned(v, files - {s}) + Owned(v, s)
  {
    forall x | x in AllOwned(v, files) && x !in Owned(v, s)
      ensures x in AllOwned(v, files - {s})
    {
      var t :| t in files && x in Owned(v, t);
      assert t in files - {s};
    }
    InAll(v, files, s);
  }

  lemma OthersApart(v: View, files: set<int>, loose: set<int>, s: int)
    requires FilesOk(v, files, loose) && s in files
    ensures Owned(v, s) !! AllOwned(v, files - {s}) && loose !! AllOwned(v, files - {s}) && Owned(v, s) !! loose
  {
    forall x | x in AllOwned(v, files - {s})
      ensures x !in Owned(v, s) && x !in loose
    {
      var t :| t in files - {s} && x in Owned(v, t);
      assert Owned(v, s) !! Owned(v, t);
      assert Owned(v, t) !! loose;
    }
  }

  /** The files other than s stay where they are, s comes to own o2: the volume is in order again. */
  lemma VolumeStep(v: View, files: set<int>, loose: set<int>,
                   w: View, bits2: seq<bool>, loose2: set<int>, s: int, o2: set<int>)
    requires s in files && FilesOk(v, files - {s}, loose)
    requires forall t :: t in files && t != s ==> Stays(v, w, t)
    requires FileWf(w, s) && Owned(w, s) == o2 && (s != FREE_MAP ==> TailZero(w, InodeAt(w, s)))
    requires loose2 <= loose && o2 !! loose2
    requires o2 !! AllOwned(v, files - {s})
    requires Used(bits2) == AllOwned(v, files - {s}) + o2 + loose2
    ensures VolumeOk(w, bits2, files, loose2)
  {
    hide FileWf, TailZero, Used, Owned, Contents, InodeAt;
    forall t | t in files && t != s
      ensures FileWf(w, t) && (t != FREE_MAP ==> TailZero(w, InodeAt(w, t)))
      ensures Owned(w, t) == Owned(v, t) && Owned(w, t) !! o2 && Owned(w, t) !! loose2
    {
      assert t in files - {s};
      assert Stays(v, w, t);
      InAll(v, files - {s}, t);
    }
    SameOwned(v, w, files - {s});
    AllBut(w, files, s);
  }

  lemma SameOwned(v: View, w: View, files: set<int>)
    requires forall t :: t in files ==> Owned(w, t) == Owned(v, t)
    ensures AllOwned(w, files) == AllOwned(v, files)
  {
    forall x
      ensures x in AllOwned(w, files) <==> x in AllOwned(v, files)
    {
      if x in AllOwned(w, files) {
        var t :| t in files && x in Owned(w, t);
        assert x in Owned(v, t);
      }
      if x in AllOwned(v, files) {
        var t :| t in files && x in Owned(v, t);
        assert x in Owned(w, t);
      }
    }
  }
}
