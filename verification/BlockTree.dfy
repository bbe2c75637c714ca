/** The tree of index blocks below a block pointer: which sectors it owns and which sector holds the
    k-th data block. A forest is a row of such trees, like the entries of an index block or the 125
    pointers of an inode. */
module BlockTree {
  import opened Sectors
  import opened DiskFormat

  /** A device image. */
  type View = seq<Sector>

  /** The pointers in the index block at sector p. */
  function BlockAt(v: View, p: int): IndexBlock {
    if 0 <= p < |v| then DecodeIndex(v[p]) else NoPointers()
  }

  /** The most data sectors below a pointer with `level` index blocks above the data. */
  function Cap(level: nat): nat {
    if level == 0 then 1 else if level == 1 then 128 else 16384
  }

  /** Of n data sectors in a row, how many lie below entry i of an index block whose entries have this level. */
  function Portion(n: nat, i: nat, level: nat): nat {
    if level == 0 then (if i < n then 1 else 0)
    else if n <= 128 * i then 0
    else if n - 128 * i < 128 then n - 128 * i
    else 128
  }

  /** A block pointer, how many index blocks lie above the data, and how many data sectors it leads to. */
  datatype Root = Root(ptr: SectorNo, level: nat, count: nat)

  function Kids(v: View, r: Root): (f: seq<Root>)
    requires r.level > 0
    ensures |f| == PTRS
    ensures forall i :: 0 <= i < PTRS ==>
              f[i] == Root(BlockAt(v, r.ptr)[i], r.level - 1, Portion(r.count, i, r.level - 1))
  {
    seq(PTRS, i requires 0 <= i < PTRS => Root(BlockAt(v, r.ptr)[i], r.level - 1, Portion(r.count, i, r.level - 1)))
  }

  // Each recursive definition has a plain name of its own below, which proofs can treat as a black box.

  ghost function NodesRec(v: View, r: Root): set<int>
    decreases r.level
  {
    if r.count == 0 then {}
    else if r.level == 0 then {r.ptr as int}
    else {r.ptr as int} + set i, x | 0 <= i < PTRS && x in NodesRec(v, Kids(v, r)[i]) :: x
  }

  ghost function IndexRec(v: View, r: Root): set<int>
    decreases r.level
  {
    if r.count == 0 || r.level == 0 then {}
    else {r.ptr as int} + set i, x | 0 <= i < PTRS && x in IndexRec(v, Kids(v, r)[i]) :: x
  }

  function LeafRec(v: View, r: Root, k: nat): SectorNo
    requires r.level <= 2 && k < Cap(r.level)
    decreases r.level
  {
    if r.level == 0 then r.ptr
    else if r.level == 1 then LeafRec(v, Kids(v, r)[k], 0)
    else LeafRec(v, Kids(v, r)[k / 128], k % 128)
  }

  ghost predicate TreeRec(v: View, r: Root)
    decreases r.level
  {
    && r.level <= 2
    && r.count <= Cap(r.level)
    && (r.count == 0 ==> r.ptr == 0)
    && (r.count > 0 ==> 0 < r.ptr < |v|)
    && (r.count > 0 && r.level > 0 ==>
          && (forall i :: 0 <= i < PTRS ==> TreeRec(v, Kids(v, r)[i]))
          && (forall i, j :: 0 <= i < j < PTRS ==> NodesRec(v, Kids(v, r)[i]) !! NodesRec(v, Kids(v, r)[j]))
          && (forall i :: 0 <= i < PTRS ==> r.ptr as int !in NodesRec(v, Kids(v, r)[i])))
  }

  /** Every sector of the tree, index blocks and data. */
  ghost function Nodes(v: View, r: Root): set<int> {
    NodesRec(v, r)
  }

  /** The index blocks of the tree. */
  ghost function Index(v: View, r: Root): set<int> {
    IndexRec(v, r)
  }

  /** The sector that holds data block k. */
  function Leaf(v: View, r: Root, k: nat): SectorNo
    requires r.level <= 2 && k < Cap(r.level)
  {
    LeafRec(v, r, k)
  }

  /** The tree lies on the device, no sector occurs twice in it, and pointers that lead to no data are zero. */
  ghost predicate TreeOk(v: View, r: Root) {
    TreeRec(v, r)
  }

  ghost function ForestNodes(v: View, f: seq<Root>): set<int> {
    set i, x | 0 <= i < |f| && x in Nodes(v, f[i]) :: x
  }

  ghost function ForestIndex(v: View, f: seq<Root>): set<int> {
    set i, x | 0 <= i < |f| && x in Index(v, f[i]) :: x
  }

  ghost predicate ForestOk(v: View, f: seq<Root>) {
    && (forall i :: 0 <= i < |f| ==> TreeOk(v, f[i]))
    && (forall i, j :: 0 <= i < j < |f| ==> Nodes(v, f[i]) !! Nodes(v, f[j]))
  }

  lemma InForest(v: View, f: seq<Root>, i: nat)
    requires i < |f|
    ensures Nodes(v, f[i]) <= ForestNodes(v, f)
    ensures Index(v, f[i]) <= ForestIndex(v, f)
  {
  }

  // ----- the tree and the forest of its children

  lemma KidsNodes(v: View, r: Root)
    requires r.level > 0 && r.count > 0
    ensures Nodes(v, r) == {r.ptr as int} + ForestNodes(v, Kids(v, r))
  {
    var f := Kids(v, r);
    forall x | x in NodesRec(v, r) && x != r.ptr
      ensures x in ForestNodes(v, f)
    {
      var i :| 0 <= i < PTRS && x in NodesRec(v, f[i]);
      assert x in Nodes(v, f[i]);
    }
    forall x | x in ForestNodes(v, f)
      ensures x in NodesRec(v, r)
    {
      var i :| 0 <= i < PTRS && x in Nodes(v, f[i]);
      assert x in NodesRec(v, f[i]);
    }
  }

  lemma KidsIndex(v: View, r: Root)
    requires r.level > 0 && r.count > 0
    ensures Index(v, r) == {r.ptr as int} + ForestIndex(v, Kids(v, r))
  {
    var f := Kids(v, r);
    forall x | x in IndexRec(v, r) && x != r.ptr
      ensures x in ForestIndex(v, f)
    {
      var i :| 0 <= i < PTRS && x in IndexRec(v, f[i]);
      assert x in Index(v, f[i]);
    }
    forall x | x in ForestIndex(v, f)
      ensures x in IndexRec(v, r)
    {
      var i :| 0 <= i < PTRS && x in Index(v, f[i]);
      assert x in IndexRec(v, f[i]);
    }
  }

  lemma KidsOk(v: View, r: Root)
    requires r.level > 0 && r.count > 0
    ensures TreeOk(v, r) <==>
              && r.level <= 2 && r.count <= Cap(r.level) && 0 < r.ptr < |v|
              && ForestOk(v, Kids(v, r)) && r.ptr as int !in ForestNodes(v, Kids(v, r))
  {
    var f := Kids(v, r);
    assert r.ptr as int !in ForestNodes(v, f) <==> forall i :: 0 <= i < PTRS ==> r.ptr as int !in Nodes(v, f[i]);
    assert forall i :: 0 <= i < PTRS ==> Nodes(v, f[i]) == NodesRec(v, f[i]);
    assert forall i :: 0 <= i < PTRS ==> TreeOk(v, f[i]) == TreeRec(v, f[i]);
  }

  lemma KidsForest(v: View, r: Root)
    requires r.level > 0 && r.count > 0
    ensures Nodes(v, r) == {r.ptr as int} + ForestNodes(v, Kids(v, r))
    ensures Index(v, r) == {r.ptr as int} + ForestIndex(v, Kids(v, r))
    ensures TreeOk(v, r) <==>
              && r.level <= 2 && r.count <= Cap(r.level) && 0 < r.ptr < |v|
              && ForestOk(v, Kids(v, r)) && r.ptr as int !in ForestNodes(v, Kids(v, r))
  {
    hide TreeOk, Nodes, Index, ForestNodes, ForestIndex, ForestOk;
    KidsNodes(v, r);
    KidsIndex(v, r);
    KidsOk(v, r);
  }

  lemma {:induction false} IndexInNodes(v: View, r: Root)
    ensures Index(v, r) <= Nodes(v, r)
    decreases r.level
  {
    if r.count > 0 && r.level > 0 {
      forall x | x in Index(v, r)
        ensures x in Nodes(v, r)
      {
        if x != r.ptr {
          var i :| 0 <= i < PTRS && x in Index(v, Kids(v, r)[i]);
          IndexInNodes(v, Kids(v, r)[i]);
        }
      }
    }
  }

  /** A pointer is null exactly when it leads nowhere. */
  lemma RootPtr(v: View, r: Root)
    requires TreeOk(v, r)
    ensures r.count == 0 <==> r.ptr == 0
    ensures r.count > 0 ==> 0 < r.ptr < |v| && r.ptr as int in Nodes(v, r)
  {
  }

  lemma LeafRoot(v: View, p: SectorNo, n: nat)
    requires TreeOk(v, Root(p, 0, n))
    ensures n <= 1 && Index(v, Root(p, 0, n)) == {}
    ensures p == 0 <==> n == 0
  {
  }

  /** Every sector of a tree is on the device, and none is sector 0. */
  lemma {:induction false} NodesOnDevice(v: View, r: Root, x: int)
    requires TreeOk(v, r) && x in Nodes(v, r)
    ensures 0 < x < |v|
    decreases r.level
  {
    if r.level > 0 && x != r.ptr {
      var i :| 0 <= i < PTRS && x in Nodes(v, Kids(v, r)[i]);
      NodesOnDevice(v, Kids(v, r)[i], x);
    }
  }

  /** Where data block k lies: below which entry, and as which block of that entry's tree. */
  function Slot(level: nat, k: nat): (i: nat)
    requires 0 < level <= 2 && k < Cap(level)
    ensures i < PTRS
  {
    if level == 1 then k else k / 128
  }

  function Rest(level: nat, k: nat): (j: nat)
    requires 0 < level <= 2 && k < Cap(level)
    ensures j < Cap(level - 1)
  {
    if level == 1 then 0 else k % 128
  }

  lemma LeafStep(v: View, r: Root, k: nat, n: nat)
    requires 0 < r.level <= 2 && k < Cap(r.level)
    ensures Leaf(v, r, k) == Leaf(v, Kids(v, r)[Slot(r.level, k)], Rest(r.level, k))
    ensures k < n <==> Rest(r.level, k) < Portion(n, Slot(r.level, k), r.level - 1)
  {
  }

  lemma {:induction false} LeafInTree(v: View, r: Root, k: nat)
    requires TreeOk(v, r) && k < r.count
    ensures Leaf(v, r, k) as int in Nodes(v, r)
    ensures Leaf(v, r, k) as int !in Index(v, r)
    ensures 0 < Leaf(v, r, k) < |v|
    decreases r.level
  {
    if r.level > 0 {
      LeafStep(v, r, k, r.count);
      var i := Slot(r.level, k);
      LeafInTree(v, Kids(v, r)[i], Rest(r.level, k));
      var x := Leaf(v, r, k) as int;
      forall j | 0 <= j < PTRS
        ensures x !in Index(v, Kids(v, r)[j])
      {
        IndexInNodes(v, Kids(v, r)[j]);
        assert i < j ==> Nodes(v, Kids(v, r)[i]) !! Nodes(v, Kids(v, r)[j]);
        assert j < i ==> Nodes(v, Kids(v, r)[j]) !! Nodes(v, Kids(v, r)[i]);
      }
    }
  }

  /** No data sector serves two blocks of a file. */
  lemma {:induction false} LeavesApart(v: View, r: Root, j: nat, k: nat)
    requires TreeOk(v, r) && j < k < r.count
    ensures Leaf(v, r, j) != Leaf(v, r, k)
    decreases r.level
  {
    if r.level > 0 {
      LeafStep(v, r, j, r.count);
      LeafStep(v, r, k, r.count);
      var a, b := Slot(r.level, j), Slot(r.level, k);
      if a == b {
        LeavesApart(v, Kids(v, r)[a], Rest(r.level, j), Rest(r.level, k));
      } else {
        LeafInTree(v, Kids(v, r)[a], Rest(r.level, j));
        LeafInTree(v, Kids(v, r)[b], Rest(r.level, k));
        assert Nodes(v, Kids(v, r)[a]) !! Nodes(v, Kids(v, r)[b]);
      }
    }
  }

  // ----- what a change of other sectors leaves alone

  /** Both images hold the same index blocks for this tree. */
  ghost predicate SameIndex(v: View, w: View, r: Root) {
    |v| == |w| && forall x :: x in Index(v, r) && 0 <= x < |v| ==> w[x] == v[x]
  }

  /** The two images hold the same tree below r. */
  ghost predicate SameTree(v: View, w: View, r: Root) {
    && Nodes(w, r) == Nodes(v, r)
    && Index(w, r) == Index(v, r)
    && TreeOk(w, r) == TreeOk(v, r)
  }

  lemma SameForest(v: View, w: View, f: seq<Root>)
    requires forall i :: 0 <= i < |f| ==> SameTree(v, w, f[i])
    ensures ForestNodes(w, f) == ForestNodes(v, f)
    ensures ForestIndex(w, f) == ForestIndex(v, f)
    ensures ForestOk(w, f) == ForestOk(v, f)
  {
    hide TreeOk, Nodes, Index;
  }

  lemma {:induction false} TreeFrame(v: View, w: View, r: Root)
    requires SameIndex(v, w, r)
    ensures SameTree(v, w, r)
    decreases r.level
  {
    if r.count > 0 && r.level > 0 {
      var f := Kids(v, r);
      assert f == Kids(w, r);
      KidsForest(v, r);
      KidsForest(w, r);
      hide Nodes, Index, TreeOk, Kids;
      forall i | 0 <= i < PTRS
        ensures SameTree(v, w, f[i])
      {
        assert SameIndex(v, w, f[i]);
        TreeFrame(v, w, f[i]);
      }
      SameForest(v, w, f);
    }
  }

  lemma {:induction false} LeafFrame(v: View, w: View, r: Root, k: nat)
    requires SameIndex(v, w, r)
    requires r.level <= 2 && k < r.count && k < Cap(r.level)
    ensures Leaf(w, r, k) == Leaf(v, r, k)
    decreases r.level
  {
    if r.level > 0 {
      assert Kids(w, r) == Kids(v, r);
      LeafStep(v, r, k, r.count);
      LeafStep(w, r, k, r.count);
      assert SameIndex(v, w, Kids(v, r)[Slot(r.level, k)]);
      LeafFrame(v, w, Kids(v, r)[Slot(r.level, k)], Rest(r.level, k));
    }
  }

  /** No index block of ix lost a pointer, though it may have gained some. */
  ghost predicate PointersStay(v: View, w: View, ix: set<int>) {
    forall x, j :: x in ix && 0 <= j < PTRS && BlockAt(v, x)[j] != 0 ==> BlockAt(w, x)[j] == BlockAt(v, x)[j]
  }

  /** Then every data block of the tree is where it was. */
  lemma {:induction false} LeafStays(v: View, w: View, r: Root, k: nat)
    requires TreeOk(v, r) && PointersStay(v, w, Index(v, r)) && k < r.count
    ensures Leaf(w, r, k) == Leaf(v, r, k)
    decreases r.level
  {
    if r.level > 0 {
      LeafStep(v, r, k, r.count);
      LeafStep(w, r, k, r.count);
      KidsForest(v, r);
      var i := Slot(r.level, k);
      var kid := Kids(v, r)[i];
      hide Leaf, Index, Nodes, TreeOk, ForestNodes, ForestIndex;
      RootPtr(v, kid);
      InForest(v, Kids(v, r), i);
      assert r.ptr as int in Index(v, r) && BlockAt(v, r.ptr)[i] == kid.ptr;
      assert Kids(w, r)[i] == kid;
      LeafStays(v, w, kid, Rest(r.level, k));
    }
  }
}
