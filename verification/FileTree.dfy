/** The blocks and the bytes of one file: the 125 pointers of an inode seen as a forest of block trees. */
module FileTree {
  import opened Sectors
  import opened DiskFormat
  import opened BlockTree
  import opened Growth

  const POINTERS: nat := 125

  /** How many of n sectors lie in the cap sectors from base on. */
  function Over(n: nat, base: nat, cap: nat): nat {
    if n <= base then 0 else if n - base < cap then n - base else cap
  }

  /** The pointer number j of an inode, in an inode that reaches n data sectors. */
  function RootAt(d: InodeDisk, n: nat, j: nat): Root
    requires |d.direct| == DIRECT_BLOCKS && j < POINTERS
  {
    if j < DIRECT_BLOCKS then Root(d.direct[j], 0, Over(n, j, 1))
    else if j == 123 then Root(d.indirect, 1, Over(n, 123, 128))
    else Root(d.doubly, 2, Over(n, 251, 16384))
  }

  /** The pointers of an inode when the first j of them are to lead to m data sectors, the others to n. */
  function Pointers(d: InodeDisk, n: nat, m: nat, j: nat): (f: seq<Root>)
    requires |d.direct| == DIRECT_BLOCKS
    ensures |f| == POINTERS
    ensures forall k :: 0 <= k < POINTERS ==> f[k] == RootAt(d, if k < j then m else n, k)
  {
    seq(POINTERS, k requires 0 <= k < POINTERS => RootAt(d, if k < j then m else n, k))
  }

  /** The trees of an inode that reaches n data sectors. */
  function Roots(d: InodeDisk, n: nat): (f: seq<Root>)
    requires |d.direct| == DIRECT_BLOCKS
    ensures |f| == POINTERS
    ensures forall k :: 0 <= k < POINTERS ==> f[k] == RootAt(d, n, k)
  {
    seq(POINTERS, k requires 0 <= k < POINTERS => RootAt(d, n, k))
  }

  /** index_to_sector: which pointer leads to data sector i, and as which block of its tree. */
  function Pointer(i: nat): (j: nat)
    requires i < MAX_SECTORS
    ensures j < POINTERS
  {
    if i < 123 then i else if i < 251 then 123 else 124
  }

  function Within(i: nat): nat
    requires i < MAX_SECTORS
  {
    if i < 123 then 0 else if i < 251 then i - 123 else i - 251
  }

  /** The sector that holds data sector i of a forest of inode pointers. */
  function ForestLeaf(v: View, f: seq<Root>, i: nat): SectorNo
    requires |f| == POINTERS && i < MAX_SECTORS
    requires f[123].level == 1 && f[124].level == 2 && forall j :: 0 <= j < DIRECT_BLOCKS ==> f[j].level == 0
  {
    Leaf(v, f[Pointer(i)], Within(i))
  }

  function FileLeaf(v: View, d: InodeDisk, n: nat, i: nat): SectorNo
    requires |d.direct| == DIRECT_BLOCKS && i < n <= MAX_SECTORS
  {
    ForestLeaf(v, Roots(d, n), i)
  }

  /** The blocks of the file form disjoint trees on the device. */
  ghost predicate FileOk(v: View, d: InodeDisk, n: nat) {
    && |d.direct| == DIRECT_BLOCKS
    && n <= MAX_SECTORS
    && ForestOk(v, Roots(d, n))
  }

  /** Every sector of the file but the one its inode is in. */
  ghost function FileNodes(v: View, d: InodeDisk, n: nat): set<int>
    requires |d.direct| == DIRECT_BLOCKS
  {
    ForestNodes(v, Roots(d, n))
  }

  ghost function FileIndex(v: View, d: InodeDisk, n: nat): set<int>
    requires |d.direct| == DIRECT_BLOCKS
  {
    ForestIndex(v, Roots(d, n))
  }

  /** The data sectors of the file. */
  ghost function FileData(v: View, d: InodeDisk, n: nat): set<int>
    requires |d.direct| == DIRECT_BLOCKS && n <= MAX_SECTORS
  {
    set i | 0 <= i < n :: FileLeaf(v, d, n, i) as int
  }

  function ByteIn(v: View, x: int, k: nat): Byte
    requires k < SECTOR_SIZE
  {
    if 0 <= x < |v| then v[x][k] else 0
  }

  /** All the bytes in the data sectors of the file, past its length too. */
  function Raw(v: View, d: InodeDisk, n: nat): (b: seq<Byte>)
    requires |d.direct| == DIRECT_BLOCKS && n <= MAX_SECTORS
    ensures |b| == 512 * n
  {
    seq(512 * n, k requires 0 <= k < 512 * n => ByteIn(v, FileLeaf(v, d, n, k / 512), k % 512))
  }

  /** Overwriting part of a byte sequence. */
  function Splice(b: seq<Byte>, offset: nat, buf: seq<Byte>): (r: seq<Byte>)
    requires offset + |buf| <= |b|
    ensures |r| == |b|
    ensures forall k :: 0 <= k < |b| ==> r[k] == if offset <= k < offset + |buf| then buf[k - offset] else b[k]
  {
    b[..offset] + buf + b[offset + |buf|..]
  }

  function ZeroBytes(n: nat): (b: seq<Byte>)
    ensures |b| == n && forall k :: 0 <= k < n ==> b[k] == 0
  {
    seq(n, k => 0)
  }

  // ----- data sectors are nodes, not index blocks, and none is used twice

  lemma PointerCount(d: InodeDisk, n: nat, i: nat)
    requires |d.direct| == DIRECT_BLOCKS && i < MAX_SECTORS
    ensures i < n <==> Within(i) < Roots(d, n)[Pointer(i)].count
    ensures Within(i) < Cap(Roots(d, n)[Pointer(i)].level)
  {
  }

  lemma FileLeafOk(v: View, d: InodeDisk, n: nat, i: nat)
    requires FileOk(v, d, n) && i < n
    ensures FileLeaf(v, d, n, i) as int in FileNodes(v, d, n) - FileIndex(v, d, n)
    ensures 0 < FileLeaf(v, d, n, i) < |v|
  {
    hide Nodes, Index, TreeOk, Leaf;
    var f := Roots(d, n);
    PointerCount(d, n, i);
    LeafInTree(v, f[Pointer(i)], Within(i));
    InForest(v, f, Pointer(i));
    var x := FileLeaf(v, d, n, i) as int;
    forall j | 0 <= j < POINTERS
      ensures x !in Index(v, f[j])
    {
      IndexInNodes(v, f[j]);
      assert Pointer(i) < j ==> Nodes(v, f[Pointer(i)]) !! Nodes(v, f[j]);
      assert j < Pointer(i) ==> Nodes(v, f[j]) !! Nodes(v, f[Pointer(i)]);
    }
  }

  lemma FileLeavesApart(v: View, d: InodeDisk, n: nat, i: nat, j: nat)
    requires FileOk(v, d, n) && i < j < n
    ensures FileLeaf(v, d, n, i) != FileLeaf(v, d, n, j)
  {
    hide Nodes, Index, TreeOk, Leaf;
    var f := Roots(d, n);
    PointerCount(d, n, i);
    PointerCount(d, n, j);
    if Pointer(i) == Pointer(j) {
      LeavesApart(v, f[Pointer(i)], Within(i), Within(j));
    } else {
      LeafInTree(v, f[Pointer(i)], Within(i));
      LeafInTree(v, f[Pointer(j)], Within(j));
      assert Nodes(v, f[Pointer(i)]) !! Nodes(v, f[Pointer(j)]);
    }
  }

  lemma FileNodesOnDevice(v: View, d: InodeDisk, n: nat, x: int)
    requires FileOk(v, d, n) && x in FileNodes(v, d, n)
    ensures 0 < x < |v|
  {
    hide Nodes, TreeOk;
    var f := Roots(d, n);
    var j :| 0 <= j < |f| && x in Nodes(v, f[j]);
    NodesOnDevice(v, f[j], x);
  }

  lemma FileIndexInNodes(v: View, d: InodeDisk, n: nat)
    requires |d.direct| == DIRECT_BLOCKS
    ensures FileIndex(v, d, n) <= FileNodes(v, d, n)
  {
    hide Nodes, Index;
    var f := Roots(d, n);
    forall x | x in FileIndex(v, d, n)
      ensures x in FileNodes(v, d, n)
    {
      var j :| 0 <= j < |f| && x in Index(v, f[j]);
      IndexInNodes(v, f[j]);
    }
  }

  // ----- what a change of other sectors leaves alone

  lemma FileFrame(v: View, w: View, d: InodeDisk, n: nat)
    requires |d.direct| == DIRECT_BLOCKS && n <= MAX_SECTORS
    requires |v| == |w| && forall x :: x in FileIndex(v, d, n) && 0 <= x < |v| ==> w[x] == v[x]
    ensures FileOk(w, d, n) == FileOk(v, d, n)
    ensures FileNodes(w, d, n) == FileNodes(v, d, n)
    ensures FileIndex(w, d, n) == FileIndex(v, d, n)
    ensures forall i :: 0 <= i < n ==> FileLeaf(w, d, n, i) == FileLeaf(v, d, n, i)
  {
    hide Nodes, Index, TreeOk, Leaf;
    var f := Roots(d, n);
    forall j | 0 <= j < POINTERS
      ensures SameTree(v, w, f[j]) && SameIndex(v, w, f[j])
    {
      InForest(v, f, j);
      TreeFrame(v, w, f[j]);
    }
    SameForest(v, w, f);
    forall i | 0 <= i < n
      ensures FileLeaf(w, d, n, i) == FileLeaf(v, d, n, i)
    {
      PointerCount(d, n, i);
      LeafFrame(v, w, f[Pointer(i)], Within(i));
    }
  }

  /** The file's blocks are where they were. */
  ghost predicate SameFile(v: View, w: View, d: InodeDisk, n: nat)
    requires |d.direct| == DIRECT_BLOCKS && n <= MAX_SECTORS
  {
    && FileOk(w, d, n)
    && FileNodes(w, d, n) == FileNodes(v, d, n)
    && FileIndex(w, d, n) == FileIndex(v, d, n)
    && FileData(w, d, n) == FileData(v, d, n)
  }

  /** Changes off the file leave its bytes alone. */
  lemma RawFrame(v: View, w: View, d: InodeDisk, n: nat)
    requires FileOk(v, d, n)
    requires |v| == |w| && forall x :: x in FileNodes(v, d, n) && 0 <= x < |v| ==> w[x] == v[x]
    ensures SameFile(v, w, d, n)
    ensures Raw(w, d, n) == Raw(v, d, n)
  {
    assert |d.direct| == DIRECT_BLOCKS && n <= MAX_SECTORS;
    hide FileOk, FileNodes, FileIndex, FileLeaf;
    FileIndexInNodes(v, d, n);
    FileFrame(v, w, d, n);
    forall i | 0 <= i < n
      ensures FileLeaf(v, d, n, i) as int in FileNodes(v, d, n)
    {
      FileLeafOk(v, d, n, i);
    }
  }

  /** A change that loses no pointer and touches no data sector leaves the bytes alone. */
  lemma RawStays(v: View, w: View, d: InodeDisk, n: nat, changed: set<int>)
    requires FileOk(v, d, n) && PointersStay(v, w, FileIndex(v, d, n)) && AgreeOff(v, w, changed)
    requires changed !! FileNodes(v, d, n) - FileIndex(v, d, n)
    ensures |d.direct| == DIRECT_BLOCKS && n <= MAX_SECTORS && Raw(w, d, n) == Raw(v, d, n)
  {
    assert |d.direct| == DIRECT_BLOCKS && n <= MAX_SECTORS;
    hide FileOk, FileNodes, FileIndex, FileLeaf, PointersStay;
    forall i | 0 <= i < n
      ensures FileLeaf(w, d, n, i) == FileLeaf(v, d, n, i) < |v|
      ensures |w| == |v| && w[FileLeaf(v, d, n, i)] == v[FileLeaf(v, d, n, i)]
    {
      FileLeafOk(v, d, n, i);
      FileLeafStays(v, w, d, n, i);
    }
    assert Raw(w, d, n) == Raw(v, d, n);
  }

  /** The inode d has every pointer that d0 has, and maybe more. */
  predicate PointersKept(d0: InodeDisk, d: InodeDisk) {
    && |d0.direct| == |d.direct| == DIRECT_BLOCKS
    && (forall j :: 0 <= j < DIRECT_BLOCKS && d0.direct[j] != 0 ==> d.direct[j] == d0.direct[j])
    && (d0.indirect != 0 ==> d.indirect == d0.indirect)
    && (d0.doubly != 0 ==> d.doubly == d0.doubly)
  }

  /** Then it leads to the same data sectors, as far as the file of d0 goes. */
  lemma RawThrough(v: View, w: View, d0: InodeDisk, d: InodeDisk, n: nat)
    requires FileOk(v, d0, n) && PointersKept(d0, d)
    ensures n <= MAX_SECTORS && Raw(w, d, n) == Raw(w, d0, n)
  {
    assert n <= MAX_SECTORS;
    hide TreeOk, Leaf;
    forall i | 0 <= i < n
      ensures FileLeaf(w, d, n, i) == FileLeaf(w, d0, n, i)
    {
      PointerCount(d0, n, i);
      RootPtr(v, Roots(d0, n)[Pointer(i)]);
      assert Roots(d, n)[Pointer(i)] == Roots(d0, n)[Pointer(i)];
    }
    hide FileOk, FileLeaf;
    assert Raw(w, d, n) == Raw(w, d0, n);
  }

  lemma FileLeafStays(v: View, w: View, d: InodeDisk, n: nat, i: nat)
    requires FileOk(v, d, n) && PointersStay(v, w, FileIndex(v, d, n)) && i < n
    ensures FileLeaf(w, d, n, i) == FileLeaf(v, d, n, i)
  {
    hide Nodes, Index, TreeOk, Leaf;
    var f := Roots(d, n);
    PointerCount(d, n, i);
    InForest(v, f, Pointer(i));
    LeafStays(v, w, f[Pointer(i)], Within(i));
  }

  /** Rewriting the sector of data block i changes exactly those 512 bytes of the file. */
  lemma RawWrite(v: View, d: InodeDisk, n: nat, i: nat, s: Sector)
    requires FileOk(v, d, n) && i < n
    ensures 0 <= FileLeaf(v, d, n, i) < |v|
    ensures SameFile(v, v[FileLeaf(v, d, n, i) := s], d, n)
    ensures Raw(v[FileLeaf(v, d, n, i) := s], d, n) == Splice(Raw(v, d, n), 512 * i, s)
  {
    assert |d.direct| == DIRECT_BLOCKS && n <= MAX_SECTORS;
    hide FileOk, FileNodes, FileIndex, FileLeaf;
    FileLeafOk(v, d, n, i);
    var w := v[FileLeaf(v, d, n, i) := s];
    FileFrame(v, w, d, n);
    forall j | 0 <= j < n && j != i
      ensures FileLeaf(v, d, n, j) != FileLeaf(v, d, n, i)
    {
      if i < j {
        FileLeavesApart(v, d, n, i, j);
      } else {
        FileLeavesApart(v, d, n, j, i);
      }
    }
    var before, after := Raw(v, d, n), Raw(w, d, n);
    forall k | 0 <= k < 512 * n
      ensures after[k] == if 512 * i <= k < 512 * i + 512 then s[k - 512 * i] else before[k]
    {
      assert FileLeaf(w, d, n, k / 512) == FileLeaf(v, d, n, k / 512);
    }
  }

  /** A grown file reads as before, followed by zeros. */
  lemma RawGrow(v: View, d: InodeDisk, n: nat, w: View, d2: InodeDisk, m: nat, g: set<int>)
    requires FileOk(v, d, n) && |d2.direct| == DIRECT_BLOCKS && n <= m <= MAX_SECTORS
    requires ForestGrew(v, Roots(d, n), w, Roots(d2, m), g)
    requires forall x :: x in FileData(v, d, n) && 0 <= x < |v| ==> x < |w| && w[x] == v[x]
    ensures FileOk(w, d2, m)
    ensures forall i :: 0 <= i < n ==> FileLeaf(w, d2, m, i) == FileLeaf(v, d, n, i)
    ensures Raw(w, d2, m) == Raw(v, d, n) + ZeroBytes(512 * (m - n))
  {
    hide ForestOk, Grew, FreshLeaf, Leaf, ForestNodes;
    var f, f2 := Roots(d, n), Roots(d2, m);
    forall i | 0 <= i < m
      ensures i < n ==> FileLeaf(w, d2, m, i) == FileLeaf(v, d, n, i)
      ensures i >= n ==> FreshLeaf(w, f2[Pointer(i)], Within(i), g)
    {
      PointerCount(d, n, i);
      PointerCount(d2, m, i);
      GrewLeaf(v, f[Pointer(i)], w, f2[Pointer(i)], g, Within(i));
    }
    RawBytesGrow(v, d, n, w, d2, m, g);
  }

  lemma FreshFileLeaf(v: View, d: InodeDisk, n: nat, w: View, d2: InodeDisk, m: nat, g: set<int>, i: nat)
    requires FileOk(v, d, n) && |d2.direct| == DIRECT_BLOCKS && n <= i < m <= MAX_SECTORS
    requires ForestGrew(v, Roots(d, n), w, Roots(d2, m), g)
    ensures FileLeaf(w, d2, m, i) as int in g && FileLeaf(w, d2, m, i) < |w| && w[FileLeaf(w, d2, m, i)] == Zeros()
  {
    hide ForestOk, Grew, Leaf, ForestNodes;
    var f, f2 := Roots(d, n), Roots(d2, m);
    PointerCount(d, n, i);
    PointerCount(d2, m, i);
    GrewLeaf(v, f[Pointer(i)], w, f2[Pointer(i)], g, Within(i));
    assert FreshLeaf(w, f2[Pointer(i)], Within(i), g);
  }

  lemma RawBytesGrow(v: View, d: InodeDisk, n: nat, w: View, d2: InodeDisk, m: nat, g: set<int>)
    requires FileOk(v, d, n) && |d2.direct| == DIRECT_BLOCKS && n <= m <= MAX_SECTORS
    requires forall i :: 0 <= i < n ==> FileLeaf(w, d2, m, i) == FileLeaf(v, d, n, i)
    requires forall i :: n <= i < m ==> FreshLeaf(w, Roots(d2, m)[Pointer(i)], Within(i), g)
    requires forall x :: x in FileData(v, d, n) && 0 <= x < |v| ==> x < |w| && w[x] == v[x]
    ensures Raw(w, d2, m) == Raw(v, d, n) + ZeroBytes(512 * (m - n))
  {
    assert |d.direct| == DIRECT_BLOCKS;
    hide FileOk, Leaf;
    var a, b := Raw(w, d2, m), Raw(v, d, n) + ZeroBytes(512 * (m - n));
    forall k | 0 <= k < 512 * m
      ensures a[k] == b[k]
    {
      var i := k / 512;
      if i < n {
        FileLeafOk(v, d, n, i);
        assert FileLeaf(v, d, n, i) as int in FileData(v, d, n);
      } else {
        assert FreshLeaf(w, Roots(d2, m)[Pointer(i)], Within(i), g);
      }
    }
  }
}
