/** What one reservation step does to a block tree, to a forest of them and to the free map. */
module Reserving {
  import opened Sectors
  import opened DiskFormat
  import opened BlockTree
  import opened Growth
  import opened FileTree
  import opened Accounting

  /** The sectors that were free in bits0 and are marked in bits. */
  ghost function Gained(bits0: seq<bool>, bits: seq<bool>): set<int> {
    Used(bits) - Used(bits0)
  }

  ghost predicate Keeps(bits0: seq<bool>, bits: seq<bool>) {
    |bits| == |bits0| && Used(bits0) <= Used(bits)
  }

  /** A reservation on tree r succeeded: the tree grew to r2 by exactly the sectors gained, the price was
      exactly the difference in size, and only new sectors, index blocks of the tree and md changed. */
  ghost predicate TreeReserved(v0: View, bits0: seq<bool>, r: Root, v: View, bits: seq<bool>, r2: Root, md: set<int>) {
    && Keeps(bits0, bits)
    && Grew(v0, r, v, r2, Gained(bits0, bits))
    && Nodes(v, r2) == Nodes(v0, r) + Gained(bits0, bits)
    && AgreeOff(v0, v, Gained(bits0, bits) + Index(v0, r) + md)
    && Free(bits) + TreeSize(r.level, r2.count) == Free(bits0) + TreeSize(r.level, r.count)
    && PointersStay(v0, v, Index(v0, r))
    && (r.ptr != 0 ==> r2.ptr == r.ptr)
  }

  /** A reservation on index blocks ix ran out of space: beside new sectors, ix and md only sector 0 may have changed,
      and in ix no pointer is lost. */
  ghost predicate Stuck(v0: View, bits0: seq<bool>, ix: set<int>, v: View, bits: seq<bool>, md: set<int>) {
    && Keeps(bits0, bits)
    && AgreeOff(v0, v, Gained(bits0, bits) + ix + md + {0})
    && PointersStay(v0, v, ix)
  }

  /** On a full device a reservation changes nothing, sector 0 at most, whether it fails or has nothing to do. */
  ghost predicate Idle(v0: View, bits0: seq<bool>, v: View, bits: seq<bool>) {
    Free(bits0) == 0 ==> bits == bits0 && AgreeOff(v0, v, {0})
  }

  lemma IdleNone(v: View, bits: seq<bool>)
    ensures Idle(v, bits, v, bits)
  {
  }

  lemma IdleStep(v0: View, bits0: seq<bool>, v: View, bits: seq<bool>, w: View, wbits: seq<bool>)
    requires Idle(v0, bits0, v, bits) && Idle(v, bits, w, wbits)
    ensures Idle(v0, bits0, w, wbits)
  {
    hide Free;
  }

  lemma IdleNull(v0: View, bits: seq<bool>, v: View)
    requires AgreeOff(v0, v, {0})
    ensures Idle(v0, bits, v, bits)
  {
  }

  lemma IdleBits(v0: View, bits0: seq<bool>, v: View, bits: seq<bool>)
    requires Idle(v0, bits0, v, bits)
    ensures Free(bits0) == 0 ==> bits == bits0
  {
    hide Free;
  }

  lemma IdleSame(v0: View, bits0: seq<bool>, v: View, bits: seq<bool>)
    requires Idle(v0, bits0, v, bits)
    ensures Free(bits0) == 0 && First(v) == First(v0) ==> v == v0 && bits == bits0
  {
    hide Free;
  }

  /** A forest has been extended by exactly the sectors gained. */
  ghost predicate Extended(v0: View, bits0: seq<bool>, f: seq<Root>, v: View, bits: seq<bool>, f2: seq<Root>,
    md: set<int>) {
    && Keeps(bits0, bits)
    && ForestGrew(v0, f, v, f2, Gained(bits0, bits))
    && AgreeOff(v0, v, Gained(bits0, bits) + ForestIndex(v0, f) + md)
    && PointersStay(v0, v, ForestIndex(v0, f))
    && forall i :: 0 <= i < |f| && f[i].ptr != 0 ==> f2[i].ptr == f[i].ptr
  }

  /** Tree j of the forest is still as it was. */
  ghost predicate Untouched(v0: View, f: seq<Root>, v: View, f2: seq<Root>, j: nat)
    requires j < |f| == |f2|
  {
    && f2[j] == f[j]
    && Nodes(v, f[j]) == Nodes(v0, f[j])
    && Index(v, f[j]) == Index(v0, f[j])
  }

  /** The forest lies on marked sectors and apart from md, which is marked too. */
  ghost predicate Settled(v: View, bits: seq<bool>, f: seq<Root>, md: set<int>) {
    && ForestOk(v, f)
    && ForestNodes(v, f) <= Used(bits)
    && md <= Used(bits)
    && md !! ForestNodes(v, f)
  }

  lemma SettledOk(v: View, bits: seq<bool>, f: seq<Root>, md: set<int>)
    requires Settled(v, bits, f, md)
    ensures ForestOk(v, f)
  {
  }

  lemma ExtendedNone(v: View, bits: seq<bool>, f: seq<Root>, md: set<int>)
    requires ForestOk(v, f)
    ensures Extended(v, bits, f, v, bits, f, md)
    ensures forall j :: 0 <= j < |f| ==> Untouched(v, f, v, f, j)
  {
    hide ForestOk, Grew, Nodes, Index, ForestNodes, ForestIndex, Used;
    assert Gained(bits, bits) == {};
    ForestGrewSelf(v, f);
  }

  /** Pointers stay through a second change that touches only blocks whose pointers stay, and no other block of ix. */
  lemma StayStep(u: View, v: View, w: View, ix: set<int>, ix2: set<int>, changed: set<int>)
    requires PointersStay(u, v, ix) && PointersStay(v, w, ix2) && AgreeOff(v, w, changed)
    requires forall x :: x in ix && x !in ix2 ==> x !in changed
    ensures PointersStay(u, w, ix)
  {
    hide DecodeIndex;
  }

  /** The index blocks of a settled forest are marked, apart from md, and none is sector 0. */
  lemma IndexApart(v: View, bits: seq<bool>, f: seq<Root>, md: set<int>)
    requires Settled(v, bits, f, md)
    ensures ForestIndex(v, f) <= Used(bits) && ForestIndex(v, f) !! md && 0 !in ForestIndex(v, f)
  {
    hide TreeOk, Nodes, Index, Used;
    forall x | x in ForestIndex(v, f)
      ensures x in ForestNodes(v, f) && x != 0
    {
      var j :| 0 <= j < |f| && x in Index(v, f[j]);
      IndexInNodes(v, f[j]);
      InForest(v, f, j);
      NodesOnDevice(v, f[j], x);
    }
  }

  lemma ExtendedStep(v0: View, bits0: seq<bool>, f: seq<Root>, v: View, bits: seq<bool>, f1: seq<Root>,
                     i: nat, w: View, wbits: seq<bool>, r2: Root, f2: seq<Root>, md: set<int>)
    requires Settled(v0, bits0, f, md)
    requires Extended(v0, bits0, f, v, bits, f1, md)
    requires i < |f| == |f1| && forall j :: i <= j < |f| ==> Untouched(v0, f, v, f1, j)
    requires TreeReserved(v, bits, f1[i], w, wbits, r2, md)
    requires f2 == f1[i := r2]
    ensures Extended(v0, bits0, f, w, wbits, f2, md)
    ensures forall j :: i < j < |f| ==> Untouched(v0, f, w, f2, j)
  {
    hide TreeOk, Nodes, Index, Grew, Used, ForestNodes, ForestIndex, ForestOk, PointersStay;
    var g, h := Gained(bits0, bits), Gained(bits, wbits);
    assert Gained(bits0, wbits) == g + h;
    IndexApart(v0, bits0, f, md);
    StayStep(v0, v, w, ForestIndex(v0, f), Index(v, f1[i]), h + Index(v, f1[i]) + md);
    assert Untouched(v0, f, v, f1, i);
    assert Index(v0, f[i]) <= ForestIndex(v0, f) by { InForest(v0, f, i); }
    assert ForestNodes(v, f1) == ForestNodes(v0, f) + g;
    ForestStep(v0, f, v, f1, g, w, i, r2, h, md);
    forall j | i < j < |f|
      ensures Untouched(v0, f, w, f2, j)
    {
      assert Untouched(v0, f, v, f1, j);
      SiblingFrame(v, f1, i, j, w, h, md);
    }
  }

  lemma SiblingFrame(v: View, f: seq<Root>, i: nat, j: nat, w: View, h: set<int>, md: set<int>)
    requires ForestOk(v, f) && i < j < |f|
    requires AgreeOff(v, w, h + Index(v, f[i]) + md)
    requires h !! ForestNodes(v, f) && md !! ForestNodes(v, f)
    ensures Nodes(w, f[j]) == Nodes(v, f[j]) && Index(w, f[j]) == Index(v, f[j])
  {
    hide TreeOk, Nodes, Index;
    InForest(v, f, j);
    IndexInNodes(v, f[i]);
    IndexInNodes(v, f[j]);
    assert Nodes(v, f[i]) !! Nodes(v, f[j]);
    TreeFrame(v, w, f[j]);
  }

  /** The next tree of a partly extended forest is ready for its own reservation. */
  lemma NextTree(v0: View, bits0: seq<bool>, f: seq<Root>, v: View, bits: seq<bool>, f1: seq<Root>, i: nat,
                 md: set<int>)
    requires Settled(v0, bits0, f, md)
    requires Extended(v0, bits0, f, v, bits, f1, md)
    requires i < |f| == |f1| && Untouched(v0, f, v, f1, i)
    ensures TreeOk(v, f1[i]) && Nodes(v, f1[i]) <= Used(bits) && Nodes(v, f1[i]) !! md
  {
    hide TreeOk, Nodes, Index, Grew, Used, ForestNodes, ForestIndex;
    InForest(v0, f, i);
  }

  /** When the next tree gets stuck, so does the forest. */
  lemma StuckStep(v0: View, bits0: seq<bool>, f: seq<Root>, v: View, bits: seq<bool>, f1: seq<Root>,
                  i: nat, w: View, wbits: seq<bool>, md: set<int>)
    requires Settled(v0, bits0, f, md)
    requires Extended(v0, bits0, f, v, bits, f1, md)
    requires i < |f| == |f1| && Untouched(v0, f, v, f1, i)
    requires Stuck(v, bits, Index(v, f1[i]), w, wbits, md)
    ensures Stuck(v0, bits0, ForestIndex(v0, f), w, wbits, md)
  {
    hide TreeOk, Nodes, Index, Grew, Used, ForestNodes, ForestIndex, ForestOk, PointersStay;
    InForest(v0, f, i);
    IndexApart(v0, bits0, f, md);
    StayStep(v0, v, w, ForestIndex(v0, f), Index(v, f1[i]), Gained(bits, wbits) + Index(v, f1[i]) + md + {0});
    assert Gained(bits0, wbits) == Gained(bits0, bits) + Gained(bits, wbits);
  }

  /** The base case: a data sector is taken, if the pointer was null, and filled with zeros. */
  lemma LeafReserved(v0: View, bits0: seq<bool>, v1: View, bits: seq<bool>, x: SectorNo, md: set<int>)
    requires |bits| == |bits0| && 0 < x < |bits0| <= |v0|
    requires Used(bits) == Used(bits0) + {x as int} && x as int !in Used(bits0) && Free(bits) == Free(bits0) - 1
    requires AgreeOff(v0, v1, md)
    ensures TreeReserved(v0, bits0, Root(0, 0, 0), v1[x := Zeros()], bits, Root(x, 0, 1), md)
  {
    assert Gained(bits0, bits) == {x as int} by { hide Free; }
    var w := v1[x := Zeros()];
    hide Used, Free;
    assert Leaf(w, Root(x, 0, 1), 0) == x;
    assert FreshLeaf(w, Root(x, 0, 1), 0, {x as int});
  }

  // ----- an index block

  lemma EmptyTree(v: View, r: Root)
    requires r.count == 0
    ensures Nodes(v, r) == {} && Index(v, r) == {}
  {
  }

  lemma TreeSizeOf(level: nat, k: nat)
    requires level > 0
    ensures TreeSize(level, k) == KidsSize(level, k) + if k > 0 then 1 else 0
  {
  }

  lemma FreshLeafMore(w: View, r: Root, k: nat, g: set<int>, h: set<int>)
    requires r.level <= 2 && k < Cap(r.level) && g <= h
    requires FreshLeaf(w, r, k, g)
    ensures FreshLeaf(w, r, k, h)
  {
  }

  /** The entries of an index block when the first i of them are to lead to m data sectors, the others to n. */
  function Entries(blocks: IndexBlock, level: nat, n: nat, m: nat, i: nat): (f: seq<Root>)
    requires level > 0
    ensures |f| == PTRS
    ensures forall j :: 0 <= j < PTRS ==>
              f[j] == Root(blocks[j], level - 1, Portion(if j < i then m else n, j, level - 1))
  {
    seq(PTRS, j requires 0 <= j < PTRS => Root(blocks[j], level - 1, Portion(if j < i then m else n, j, level - 1)))
  }

  /** The index block p of tree r is in place: it was there before, or it is new and filled with zeros. */
  ghost predicate Started(v0: View, bits0: seq<bool>, r: Root, v: View, bits: seq<bool>, p: SectorNo, md: set<int>) {
    if r.count > 0 then
      v == v0 && bits == bits0 && p == r.ptr
    else
      && |bits| == |bits0| <= |v0|
      && 0 < p < |bits|
      && p as int !in Used(bits0)
      && Used(bits) == Used(bits0) + {p as int}
      && Free(bits) == Free(bits0) - 1
      && AgreeOff(v0, v, {p as int} + md)
      && v[p] == Zeros()
  }

  lemma StartedIdle(v0: View, bits0: seq<bool>, r: Root, v: View, bits: seq<bool>, p: SectorNo, md: set<int>)
    requires Started(v0, bits0, r, v, bits, p, md)
    ensures Idle(v0, bits0, v, bits)
    ensures Free(bits0) == 0 ==> v == v0 && p == r.ptr
    ensures r.count > 0 ==> p == r.ptr
  {
    hide Used, Free;
  }

  /** Writing an index block back as it was read changes nothing. */
  lemma IdleBlock(v0: View, bits0: seq<bool>, v: View, bits: seq<bool>, p: SectorNo, blocks: IndexBlock)
    requires Idle(v0, bits0, v, bits) && 0 < p < |v|
    requires Free(bits0) == 0 ==> blocks == BlockAt(v0, p)
    ensures Idle(v0, bits0, v[p := EncodeIndex(blocks)], bits)
  {
    hide Free, EncodeIndex, DecodeIndex;
    if Free(bits0) == 0 {
      EncodeDecode(v0[p]);
    }
  }

  lemma NullKids(v: View, p: SectorNo, level: nat)
    requires 0 < level <= 2 && p < |v| && v[p] == Zeros()
    ensures ForestNodes(v, Kids(v, Root(p, level, 0))) == {}
    ensures ForestIndex(v, Kids(v, Root(p, level, 0))) == {}
    ensures ForestOk(v, Kids(v, Root(p, level, 0)))
  {
    ZerosDecode();
  }

  /** Before the loop over its entries the index block's forest is settled, and the block itself is apart from it. */
  lemma StartedForest(v0: View, bits0: seq<bool>, r: Root, v: View, bits: seq<bool>, p: SectorNo, md: set<int>)
    requires 0 < r.level <= 2 && TreeOk(v0, r) && Nodes(v0, r) <= Used(bits0)
    requires md <= Used(bits0) && md !! Nodes(v0, r)
    requires Started(v0, bits0, r, v, bits, p, md)
    ensures Settled(v, bits, Kids(v, Root(p, r.level, r.count)), md)
    ensures p as int !in ForestNodes(v, Kids(v, Root(p, r.level, r.count)))
    ensures p as int in Used(bits) && p as int !in md && 0 < p < |v|
    ensures ForestIndex(v, Kids(v, Root(p, r.level, r.count))) + {p as int} == Index(v0, r) + Gained(bits0, bits)
  {
    if r.count > 0 {
      KidsForest(v0, r);
      hide Nodes, TreeOk, Index, ForestNodes, ForestOk, ForestIndex, Used, Free;
      assert r == Root(p, r.level, r.count);
    } else {
      NullKids(v, p, r.level);
      hide Nodes, TreeOk, ForestNodes, ForestOk, ForestIndex, Used, Free;
    }
  }

  /** Rewriting the block itself leaves the forest below it alone. */
  lemma ForestGrewFrame(v: View, f: seq<Root>, w: View, f2: seq<Root>, g: set<int>, w2: View)
    requires ForestGrew(v, f, w, f2, g)
    requires |w| == |w2| && forall x :: x in ForestNodes(w, f2) && 0 <= x < |w| ==> w2[x] == w[x]
    ensures ForestGrew(v, f, w2, f2, g)
  {
    hide TreeOk, Nodes, Index, Grew;
    forall i | 0 <= i < |f2|
      ensures Grew(v, f[i], w2, f2[i], g)
      ensures SameTree(w, w2, f2[i])
    {
      InForest(w, f2, i);
      GrewFrame(v, f[i], w, f2[i], g, w2, g);
      IndexInNodes(w, f2[i]);
      TreeFrame(w, w2, f2[i]);
    }
    SameForest(w, w2, f2);
  }

  lemma EntriesWritten(v: View, p: SectorNo, level: nat, n: nat, m: nat, blocks: IndexBlock)
    requires level > 0 && p < |v|
    ensures Kids(v[p := EncodeIndex(blocks)], Root(p, level, m)) == Entries(blocks, level, n, m, PTRS)
  {
    IndexRoundTrip(blocks);
  }

  /** After the loop the finished block is written back, and the tree has been reserved. */
  lemma BlockFinished(v0: View, bits0: seq<bool>, r: Root, v1: View, bits1: seq<bool>, p: SectorNo,
                      v2: View, bits2: seq<bool>, blocks: IndexBlock, m: nat, md: set<int>)
    requires 0 < r.level <= 2 && TreeOk(v0, r) && Nodes(v0, r) <= Used(bits0)
    requires md <= Used(bits0) && md !! Nodes(v0, r)
    requires Started(v0, bits0, r, v1, bits1, p, md)
    requires r.count <= m <= Cap(r.level) && 0 < m
    requires Extended(v1, bits1, Kids(v1, Root(p, r.level, r.count)), v2, bits2,
                      Entries(blocks, r.level, r.count, m, PTRS), md)
    requires Free(bits2) + KidsSize(r.level, m) == Free(bits1) + KidsSize(r.level, r.count)
    ensures 0 < p < |v2|
    ensures TreeReserved(v0, bits0, r, v2[p := EncodeIndex(blocks)], bits2, Root(p, r.level, m), md)
  {
    hide TreeOk, Nodes, Index, Leaf, ForestNodes, ForestIndex, ForestOk, Grew, FreshLeaf, Used, Free, KidsSize, Started,
      Kids, Entries, EncodeIndex, PointersStay;
    StartedForest(v0, bits0, r, v1, bits1, p, md);
    var r1, r2 := Root(p, r.level, r.count), Root(p, r.level, m);
    var v3 := v2[p := EncodeIndex(blocks)];
    var f, f2 := Kids(v1, r1), Entries(blocks, r.level, r.count, m, PTRS);
    var g := Gained(bits1, bits2);
    EntriesWritten(v2, p, r.level, r.count, m, blocks);
    ForestGrewFrame(v1, f, v2, f2, g, v3);
    LiftGrowth(v1, r1, v3, r2, g);
    BlockStays(v1, p, r.level, r.count, m, v2, blocks);
    BlockReserved(v0, bits0, r, v1, bits1, p, v3, bits2, m, md);
  }

  lemma BlockReserved(v0: View, bits0: seq<bool>, r: Root, v1: View, bits1: seq<bool>, p: SectorNo,
                      v3: View, bits2: seq<bool>, m: nat, md: set<int>)
    requires 0 < r.level <= 2 && TreeOk(v0, r) && Nodes(v0, r) <= Used(bits0)
    requires md <= Used(bits0) && md !! Nodes(v0, r)
    requires Started(v0, bits0, r, v1, bits1, p, md)
    requires r.count <= m <= Cap(r.level) && 0 < m
    requires Keeps(bits1, bits2)
    requires AgreeOff(v1, v3,
                      Gained(bits1, bits2) + ForestIndex(v1, Kids(v1, Root(p, r.level, r.count))) + md + {p as int})
    requires TreeOk(v3, Root(p, r.level, m))
    requires Nodes(v3, Root(p, r.level, m)) ==
             {p as int} + ForestNodes(v1, Kids(v1, Root(p, r.level, r.count))) + Gained(bits1, bits2)
    requires forall k :: 0 <= k < r.count ==>
                           Leaf(v3, Root(p, r.level, m), k) == Leaf(v1, Root(p, r.level, r.count), k)
    requires forall k :: r.count <= k < m ==> FreshLeaf(v3, Root(p, r.level, m), k, Gained(bits1, bits2))
    requires Free(bits2) + KidsSize(r.level, m) == Free(bits1) + KidsSize(r.level, r.count)
    requires PointersStay(v1, v3, ForestIndex(v1, Kids(v1, Root(p, r.level, r.count))) + {p as int})
    ensures TreeReserved(v0, bits0, r, v3, bits2, Root(p, r.level, m), md)
  {
    hide TreeOk, Nodes, Index, Leaf, ForestNodes, ForestIndex, Used, Free, Kids, FreshLeaf, TreeSize, KidsSize, Started,
      Gained, Keeps, AgreeOff, PointersStay;
    RootPtr(v0, r);
    StartedForest(v0, bits0, r, v1, bits1, p, md);
    StartedGained(v0, bits0, r, v1, bits1, p, md);
    TreeSizeOf(r.level, r.count);
    TreeSizeOf(r.level, m);
    GainedTwice(bits0, bits1, bits2);
    BlockNodes(v0, bits0, r, v1, bits1, p, md);
    if r.count == 0 {
      EmptyTree(v0, r);
      StayEmpty(v0, v3);
    } else {
      assert ForestIndex(v1, Kids(v1, Root(p, r.level, r.count))) + {p as int} == Index(v0, r);
    }
    var r2 := Root(p, r.level, m);
    var g := Gained(bits0, bits2);
    forall k | 0 <= k < r.count && k < Cap(r.level)
      ensures Leaf(v3, r2, k) == Leaf(v0, r, k)
    {
    }
    forall k | r.count <= k < m
      ensures FreshLeaf(v3, r2, k, g)
    {
      FreshLeafMore(v3, r2, k, Gained(bits1, bits2), g);
    }
    AgreeTwice(v0, v1, v3, Gained(bits0, bits1) + md,
               Gained(bits1, bits2) + ForestIndex(v1, Kids(v1, Root(p, r.level, r.count))) + md + {p as int},
               g + Index(v0, r) + md);
  }

  /** Writing the finished block back loses none of its pointers, nor any of the blocks below it. */
  lemma BlockStays(v1: View, p: SectorNo, level: nat, n: nat, m: nat, v2: View, blocks: IndexBlock)
    requires level > 0 && p < |v2| == |v1|
    requires var f, f2 := Kids(v1, Root(p, level, n)), Entries(blocks, level, n, m, PTRS);
             && PointersStay(v1, v2, ForestIndex(v1, f)) && p as int !in ForestNodes(v1, f)
             && forall i :: 0 <= i < PTRS && f[i].ptr != 0 ==> f2[i].ptr == f[i].ptr
    ensures PointersStay(v1, v2[p := EncodeIndex(blocks)], ForestIndex(v1, Kids(v1, Root(p, level, n))) + {p as int})
  {
    hide EncodeIndex, DecodeIndex, Nodes, Index;
    IndexRoundTrip(blocks);
    var f, w := Kids(v1, Root(p, level, n)), v2[p := EncodeIndex(blocks)];
    var ix := ForestIndex(v1, f);
    forall x, j | x in ix + {p as int} && 0 <= j < PTRS && BlockAt(v1, x)[j] != 0
      ensures BlockAt(w, x)[j] == BlockAt(v1, x)[j]
    {
      if x == p {
        assert f[j].ptr == BlockAt(v1, p)[j];
      } else {
        assert BlockAt(w, x) == BlockAt(v2, x);
      }
    }
  }

  lemma AgreeTwice(u: View, v: View, w: View, a: set<int>, b: set<int>, c: set<int>)
    requires AgreeOff(u, v, a) && AgreeOff(v, w, b) && a <= c && b <= c
    ensures AgreeOff(u, w, c)
  {
  }

  lemma GainedTwice(bits0: seq<bool>, bits1: seq<bool>, bits2: seq<bool>)
    requires Keeps(bits0, bits1) && Keeps(bits1, bits2)
    ensures Keeps(bits0, bits2) && Gained(bits0, bits2) == Gained(bits0, bits1) + Gained(bits1, bits2)
  {
    hide Used;
  }

  lemma StartedGained(v0: View, bits0: seq<bool>, r: Root, v: View, bits: seq<bool>, p: SectorNo, md: set<int>)
    requires Started(v0, bits0, r, v, bits, p, md)
    ensures Keeps(bits0, bits) && AgreeOff(v0, v, Gained(bits0, bits) + md)
    ensures r.count == 0 ==> Gained(bits0, bits) == {p as int} && Free(bits) == Free(bits0) - 1
    ensures r.count > 0 ==> Gained(bits0, bits) == {} && v == v0 && bits == bits0 && r == Root(p, r.level, r.count)
  {
    hide Used, Free;
  }

  lemma BlockNodes(v0: View, bits0: seq<bool>, r: Root, v1: View, bits1: seq<bool>, p: SectorNo, md: set<int>)
    requires 0 < r.level <= 2 && Started(v0, bits0, r, v1, bits1, p, md)
    ensures {p as int} + ForestNodes(v1, Kids(v1, Root(p, r.level, r.count))) == Nodes(v0, r) + Gained(bits0, bits1)
  {
    hide Used, Free, Kids, Nodes, ForestNodes, Index, ForestIndex, TreeOk;
    if r.count > 0 {
      KidsForest(v0, r);
    } else {
      NullKids(v1, p, r.level);
      EmptyTree(v0, r);
    }
  }

  // ----- steps of the loop over the entries

  lemma EntriesStep(blocks: IndexBlock, level: nat, n: nat, m: nat, i: nat, child: SectorNo)
    requires level > 0 && i < PTRS
    ensures Entries(blocks[i := child], level, n, m, i + 1)
            == Entries(blocks, level, n, m, i)[i := Root(child, level - 1, Portion(m, i, level - 1))]
  {
  }

  lemma EntriesDone(blocks: IndexBlock, level: nat, n: nat, m: nat, l: nat)
    requires 0 < level <= 2 && n <= m <= Cap(level)
    requires l <= PTRS && l == if level == 1 then m else (m + 127) / 128
    ensures Entries(blocks, level, n, m, l) == Entries(blocks, level, n, m, PTRS)
    ensures Covered(level, m, l) == m && Covered(level, n, l) == n
  {
  }

  /** Partial progress of the loop: the first i entries lead to m data sectors, the others still to n. */
  ghost predicate Filling(v0: View, bits0: seq<bool>, blocks0: IndexBlock, level: nat, n: nat, m: nat,
                          v: View, bits: seq<bool>, blocks: IndexBlock, i: nat, md: set<int>)
    requires level > 0
  {
    var f, f1 := Entries(blocks0, level, n, m, 0), Entries(blocks, level, n, m, i);
    && Extended(v0, bits0, f, v, bits, f1, md)
    && (forall j :: i <= j < PTRS ==> Untouched(v0, f, v, f1, j))
    && Free(bits) + KidsSize(level, Covered(level, m, i)) == Free(bits0) + KidsSize(level, Covered(level, n, i))
    && Idle(v0, bits0, v, bits)
    && (Free(bits0) == 0 ==> blocks == blocks0)
  }

  lemma FillingNone(v: View, bits: seq<bool>, blocks: IndexBlock, level: nat, n: nat, m: nat, md: set<int>)
    requires 1 <= level <= 2 && n <= Cap(level) && m <= Cap(level)
    requires Settled(v, bits, Entries(blocks, level, n, m, 0), md)
    ensures Filling(v, bits, blocks, level, n, m, v, bits, blocks, 0, md)
  {
    hide Settled, Extended, Untouched, Free, KidsSize, Entries, Idle, ForestOk;
    var f := Entries(blocks, level, n, m, 0);
    SettledOk(v, bits, f, md);
    ExtendedNone(v, bits, f, md);
    IdleNone(v, bits);
  }

  lemma FillingNext(v0: View, bits0: seq<bool>, blocks0: IndexBlock, level: nat, n: nat, m: nat,
                    v: View, bits: seq<bool>, blocks: IndexBlock, i: nat, md: set<int>)
    requires level > 0 && i < PTRS && Settled(v0, bits0, Entries(blocks0, level, n, m, 0), md)
    requires Filling(v0, bits0, blocks0, level, n, m, v, bits, blocks, i, md)
    ensures var r := Root(blocks[i], level - 1, Portion(n, i, level - 1));
            TreeOk(v, r) && Nodes(v, r) <= Used(bits) && Nodes(v, r) !! md
  {
    hide Settled, Extended, Untouched, Free, KidsSize, Idle, TreeOk, Nodes, Used;
    NextTree(v0, bits0, Entries(blocks0, level, n, m, 0), v, bits, Entries(blocks, level, n, m, i), i, md);
  }

  lemma FillingStep(v0: View, bits0: seq<bool>, blocks0: IndexBlock, level: nat, n: nat, m: nat,
                    v: View, bits: seq<bool>, blocks: IndexBlock, i: nat,
                    w: View, wbits: seq<bool>, child: SectorNo, md: set<int>)
    requires 1 <= level <= 2 && i < PTRS && n <= m <= Cap(level)
    requires Settled(v0, bits0, Entries(blocks0, level, n, m, 0), md)
    requires Filling(v0, bits0, blocks0, level, n, m, v, bits, blocks, i, md)
    requires TreeReserved(v, bits, Root(blocks[i], level - 1, Portion(n, i, level - 1)),
                          w, wbits, Root(child, level - 1, Portion(m, i, level - 1)), md)
    requires Idle(v, bits, w, wbits) && (Free(bits) == 0 ==> child == blocks[i])
    ensures Filling(v0, bits0, blocks0, level, n, m, w, wbits, blocks[i := child], i + 1, md)
  {
    hide Settled, Extended, Untouched, Free, KidsSize, TreeSize, Idle, TreeReserved, Covered;
    var f, f1 := Entries(blocks0, level, n, m, 0), Entries(blocks, level, n, m, i);
    var r, r2 := f1[i], Root(child, level - 1, Portion(m, i, level - 1));
    CoveredStep(level, n, i);
    CoveredStep(level, m, i);
    IdleStep(v0, bits0, v, bits, w, wbits);
    IdleBits(v0, bits0, v, bits);
    TreeReservedFree(v, bits, r, w, wbits, r2, md);
    EntriesStep(blocks, level, n, m, i, child);
    ExtendedStep(v0, bits0, f, v, bits, f1, i, w, wbits, r2, Entries(blocks[i := child], level, n, m, i + 1), md);
  }

  lemma FillingStuck(v0: View, bits0: seq<bool>, blocks0: IndexBlock, level: nat, n: nat, m: nat,
                     v: View, bits: seq<bool>, blocks: IndexBlock, i: nat, w: View, wbits: seq<bool>, md: set<int>)
    requires 1 <= level <= 2 && i < PTRS && n <= m <= Cap(level)
    requires Settled(v0, bits0, Entries(blocks0, level, n, m, 0), md)
    requires Filling(v0, bits0, blocks0, level, n, m, v, bits, blocks, i, md)
    requires Stuck(v, bits, Index(v, Root(blocks[i], level - 1, Portion(n, i, level - 1))), w, wbits, md)
    requires Idle(v, bits, w, wbits)
    requires Free(bits) + TreeSize(level - 1, Portion(n, i, level - 1)) < TreeSize(level - 1, Portion(m, i, level - 1))
    ensures Stuck(v0, bits0, ForestIndex(v0, Entries(blocks0, level, n, m, 0)), w, wbits, md)
    ensures Idle(v0, bits0, w, wbits)
    ensures Free(bits0) + KidsSize(level, n) < KidsSize(level, m)
    ensures Free(bits) + KidsSize(level, Covered(level, m, i)) == Free(bits0) + KidsSize(level, Covered(level, n, i))
    ensures Free(bits0) == 0 ==> blocks == blocks0
  {
    hide Extended, Untouched, Free, KidsSize, TreeSize, Idle, Stuck, Index, ForestIndex, Covered;
    CoveredStep(level, n, i);
    CoveredStep(level, m, i);
    CostMonotone(level, n, m, i + 1);
    IdleStep(v0, bits0, v, bits, w, wbits);
    StuckStep(v0, bits0, Entries(blocks0, level, n, m, 0), v, bits, Entries(blocks, level, n, m, i), i, w, wbits, md);
  }

  lemma FillingDone(v0: View, bits0: seq<bool>, blocks0: IndexBlock, level: nat, n: nat, m: nat,
                    v: View, bits: seq<bool>, blocks: IndexBlock, l: nat, md: set<int>)
    requires 1 <= level <= 2 && n <= m <= Cap(level)
    requires l <= PTRS && l == if level == 1 then m else (m + 127) / 128
    requires Filling(v0, bits0, blocks0, level, n, m, v, bits, blocks, l, md)
    ensures Extended(v0, bits0, Entries(blocks0, level, n, m, 0), v, bits, Entries(blocks, level, n, m, PTRS), md)
    ensures Free(bits) + KidsSize(level, m) == Free(bits0) + KidsSize(level, n)
    ensures Idle(v0, bits0, v, bits) && (Free(bits0) == 0 ==> blocks == blocks0)
    ensures Covered(level, m, l) == m
  {
    hide Extended, Untouched, Free, KidsSize, Idle, Covered;
    EntriesDone(blocks, level, n, m, l);
  }

  lemma EntriesOfKids(v: View, p: SectorNo, level: nat, n: nat, m: nat)
    requires level > 0
    ensures Entries(BlockAt(v, p), level, n, m, 0) == Kids(v, Root(p, level, n))
  {
  }

  lemma NullEntries(v: View, bits: seq<bool>, level: nat, m: nat, md: set<int>)
    requires 0 < level <= 2 && md <= Used(bits)
    ensures Settled(v, bits, Entries(NoPointers(), level, 0, m, 0), md)
    ensures ForestIndex(v, Entries(NoPointers(), level, 0, m, 0)) == {}
  {
  }

  lemma TreeReservedNone(v: View, bits: seq<bool>, r: Root, md: set<int>)
    requires TreeOk(v, r)
    ensures TreeReserved(v, bits, r, v, bits, r, md)
  {
    hide TreeOk, Nodes, Index, Leaf, Used, Free;
    assert Gained(bits, bits) == {};
    GrewSelf(v, r);
  }

  lemma TreeReservedFree(v0: View, bits0: seq<bool>, r: Root, v: View, bits: seq<bool>, r2: Root, md: set<int>)
    requires TreeReserved(v0, bits0, r, v, bits, r2, md)
    ensures Free(bits) + TreeSize(r.level, r2.count) == Free(bits0) + TreeSize(r.level, r.count)
    ensures Keeps(bits0, bits)
  {
  }

  lemma KidsSizeBounds(level: nat, k: nat)
    ensures KidsSize(level, k) >= k && KidsSize(level, 0) == 0
  {
  }

  lemma TreeSizeLeaf(k: nat)
    ensures TreeSize(0, k) == k
  {
  }

  lemma NothingStuck(v: View, bits: seq<bool>, ix: set<int>, md: set<int>)
    ensures Stuck(v, bits, ix, v, bits, md)
  {
  }

  lemma TreeSizeNone(level: nat)
    ensures TreeSize(level, 0) == 0
  {
  }

  lemma PointersSizeSkip(n: nat, l: nat)
    requires l == if n < 123 then n else 123
    ensures PointersSize(n, l) == PointersSize(n, 123)
  {
  }

  /** A stuck block makes its tree stuck. */
  lemma StuckBlock(v0: View, bits0: seq<bool>, r: Root, v1: View, bits1: seq<bool>, p: SectorNo,
                   v2: View, bits2: seq<bool>, md: set<int>)
    requires 0 < r.level <= 2 && TreeOk(v0, r) && Nodes(v0, r) <= Used(bits0)
    requires md <= Used(bits0) && md !! Nodes(v0, r)
    requires Started(v0, bits0, r, v1, bits1, p, md)
    requires Stuck(v1, bits1, ForestIndex(v1, Kids(v1, Root(p, r.level, r.count))), v2, bits2, md)
    ensures Stuck(v0, bits0, Index(v0, r), v2, bits2, md)
  {
    hide TreeOk, Nodes, Index, ForestNodes, ForestIndex, Used, Free, Kids, PointersStay;
    StartedForest(v0, bits0, r, v1, bits1, p, md);
    assert Gained(bits0, bits2) == Gained(bits0, bits1) + Gained(bits1, bits2);
    var ix := ForestIndex(v1, Kids(v1, Root(p, r.level, r.count)));
    if r.count > 0 {
      StayNone(v0, Index(v0, r));
      StayStep(v0, v1, v2, Index(v0, r), ix, Gained(bits1, bits2) + ix + md + {0});
    } else {
      EmptyTree(v0, r);
      StayEmpty(v0, v2);
    }
  }

  lemma StayNone(v: View, ix: set<int>)
    ensures PointersStay(v, v, ix)
  {
  }

  lemma StayEmpty(v: View, w: View)
    ensures PointersStay(v, w, {})
  {
  }

  lemma StuckNull(v0: View, bits: seq<bool>, r: Root, v1: View, v2: View, bits2: seq<bool>, md: set<int>)
    requires r.count == 0
    requires AgreeOff(v0, v1, md + {0})
    requires Stuck(v1, bits, {}, v2, bits2, md)
    ensures Stuck(v0, bits, Index(v0, r), v2, bits2, md)
  {
    hide Used, PointersStay;
    EmptyTree(v0, r);
    StayEmpty(v0, v2);
  }

  // ----- the pointers of an inode

  /** The inode with pointer j replaced. */
  function SetPointer(d: InodeDisk, j: nat, x: SectorNo): (d2: InodeDisk)
    requires |d.direct| == DIRECT_BLOCKS && j < POINTERS
    ensures |d2.direct| == DIRECT_BLOCKS
  {
    if j < DIRECT_BLOCKS then d.(direct := d.direct[j := x])
    else if j == 123 then d.(indirect := x)
    else d.(doubly := x)
  }

  lemma PointersStep(d: InodeDisk, n: nat, m: nat, j: nat, x: SectorNo)
    requires |d.direct| == DIRECT_BLOCKS && j < POINTERS
    ensures Pointers(SetPointer(d, j, x), n, m, j + 1)
            == Pointers(d, n, m, j)[j := Root(x, RootAt(d, m, j).level, RootAt(d, m, j).count)]
  {
  }

  lemma PointersEnds(d: InodeDisk, n: nat, m: nat)
    requires |d.direct| == DIRECT_BLOCKS
    ensures Pointers(d, n, m, 0) == Roots(d, n)
    ensures Pointers(d, n, m, POINTERS) == Roots(d, m)
    ensures PointersSize(n, 0) == 0
  {
  }

  /** Pointers past the last data sector lead nowhere before and after. */
  lemma PointersDone(d: InodeDisk, n: nat, m: nat, j: nat)
    requires |d.direct| == DIRECT_BLOCKS && n <= m <= MAX_SECTORS && j <= POINTERS
    requires (m <= 123 && m <= j) || (m <= 251 && 124 <= j) || j == 125
    ensures Pointers(d, n, m, j) == Roots(d, m)
    ensures PointersSize(m, j) == FileSize(m) && PointersSize(n, j) == FileSize(n)
  {
  }

  /** Partial progress of a reservation: the first j pointers lead to m data sectors, the others still to n. */
  ghost predicate Partly(v0: View, bits0: seq<bool>, d0: InodeDisk, n: nat, m: nat,
                         v: View, bits: seq<bool>, d: InodeDisk, j: nat, md: set<int>)
    requires |d0.direct| == DIRECT_BLOCKS && |d.direct| == DIRECT_BLOCKS && j <= POINTERS
  {
    && Extended(v0, bits0, Roots(d0, n), v, bits, Pointers(d, n, m, j), md)
    && (forall k :: j <= k < POINTERS ==> Untouched(v0, Roots(d0, n), v, Pointers(d, n, m, j), k))
    && Free(bits) + PointersSize(m, j) == Free(bits0) + PointersSize(n, j)
    && (d.isDir, d.length, d.magic) == (d0.isDir, d0.length, d0.magic)
  }

  lemma PartlyNone(v: View, bits: seq<bool>, d: InodeDisk, n: nat, m: nat, md: set<int>)
    requires |d.direct| == DIRECT_BLOCKS && Settled(v, bits, Roots(d, n), md)
    ensures Partly(v, bits, d, n, m, v, bits, d, 0, md)
  {
    hide ForestOk, Extended, Untouched, Free;
    PointersEnds(d, n, m);
    ExtendedNone(v, bits, Roots(d, n), md);
  }

  lemma PartlyFree(v0: View, bits0: seq<bool>, d0: InodeDisk, n: nat, m: nat,
                   v: View, bits: seq<bool>, d: InodeDisk, j: nat, md: set<int>)
    requires |d0.direct| == DIRECT_BLOCKS && |d.direct| == DIRECT_BLOCKS && j <= POINTERS
    requires Partly(v0, bits0, d0, n, m, v, bits, d, j, md)
    ensures Free(bits) + PointersSize(m, j) == Free(bits0) + PointersSize(n, j)
  {
    hide Extended, Untouched, Free, PointersSize;
  }

  lemma PartlyNext(v0: View, bits0: seq<bool>, d0: InodeDisk, n: nat, m: nat,
                   v: View, bits: seq<bool>, d: InodeDisk, j: nat, md: set<int>)
    requires |d0.direct| == DIRECT_BLOCKS && |d.direct| == DIRECT_BLOCKS && j < POINTERS
    requires Settled(v0, bits0, Roots(d0, n), md)
    requires Partly(v0, bits0, d0, n, m, v, bits, d, j, md)
    ensures var r := RootAt(d, n, j);
            TreeOk(v, r) && Nodes(v, r) <= Used(bits) && Nodes(v, r) !! md
  {
    hide Settled, TreeOk, Nodes, Extended, Untouched, Free, Used;
    assert Pointers(d, n, m, j)[j] == RootAt(d, n, j);
    NextTree(v0, bits0, Roots(d0, n), v, bits, Pointers(d, n, m, j), j, md);
  }

  lemma PointersSizeStep(n: nat, j: nat)
    requires n <= MAX_SECTORS && j < POINTERS
    ensures PointersSize(n, j + 1) == PointersSize(n, j)
            + TreeSize(if j < 123 then 0 else if j == 123 then 1 else 2,
                       if j < 123 then Over(n, j, 1) else if j == 123 then Over(n, 123, 128) else Over(n, 251, 16384))
  {
  }

  lemma PartlyStep(v0: View, bits0: seq<bool>, d0: InodeDisk, n: nat, m: nat,
                   v: View, bits: seq<bool>, d: InodeDisk, j: nat,
                   w: View, wbits: seq<bool>, x: SectorNo, md: set<int>)
    requires |d0.direct| == DIRECT_BLOCKS && |d.direct| == DIRECT_BLOCKS && j < POINTERS
    requires n <= m <= MAX_SECTORS
    requires Settled(v0, bits0, Roots(d0, n), md)
    requires Partly(v0, bits0, d0, n, m, v, bits, d, j, md)
    requires TreeReserved(v, bits, RootAt(d, n, j), w, wbits, Root(x, RootAt(d, m, j).level, RootAt(d, m, j).count), md)
    ensures Partly(v0, bits0, d0, n, m, w, wbits, SetPointer(d, j, x), j + 1, md)
  {
    var r, r2 := RootAt(d, n, j), Root(x, RootAt(d, m, j).level, RootAt(d, m, j).count);
    TreeReservedFree(v, bits, r, w, wbits, r2, md);
    PointersSizeStep(n, j);
    PointersSizeStep(m, j);
    PointersStep(d, n, m, j, x);
    hide Settled, TreeReserved, Extended, Untouched, Free, PointersSize, TreeSize, Pointers;
    assert Pointers(d, n, m, j)[j] == r;
    ExtendedStep(v0, bits0, Roots(d0, n), v, bits, Pointers(d, n, m, j), j, w, wbits, r2,
                 Pointers(SetPointer(d, j, x), n, m, j + 1), md);
  }

  lemma PartlyStuck(v0: View, bits0: seq<bool>, d0: InodeDisk, n: nat, m: nat,
                    v: View, bits: seq<bool>, d: InodeDisk, j: nat, w: View, wbits: seq<bool>, md: set<int>)
    requires |d0.direct| == DIRECT_BLOCKS && |d.direct| == DIRECT_BLOCKS && j < POINTERS
    requires n <= m <= MAX_SECTORS
    requires Settled(v0, bits0, Roots(d0, n), md)
    requires Partly(v0, bits0, d0, n, m, v, bits, d, j, md)
    requires Stuck(v, bits, Index(v, RootAt(d, n, j)), w, wbits, md)
    requires Free(bits) + TreeSize(RootAt(d, n, j).level, RootAt(d, n, j).count)
             < TreeSize(RootAt(d, m, j).level, RootAt(d, m, j).count)
    ensures Stuck(v0, bits0, FileIndex(v0, d0, n), w, wbits, md)
    ensures Free(bits0) + FileSize(n) < FileSize(m)
  {
    PointersSizeStep(n, j);
    PointersSizeStep(m, j);
    FileSizeMonotone(n, m, j + 1);
    hide Extended, Untouched, Free, PointersSize, TreeSize, Pointers, Stuck, Index, FileSize;
    assert Pointers(d, n, m, j)[j] == RootAt(d, n, j);
    StuckStep(v0, bits0, Roots(d0, n), v, bits, Pointers(d, n, m, j), j, w, wbits, md);
  }

  /** A reservation for a whole file succeeded: from n to m data sectors, at exactly the difference in size. */
  ghost predicate Reserved(v0: View, bits0: seq<bool>, d0: InodeDisk, n: nat,
                           v: View, bits: seq<bool>, d: InodeDisk, m: nat, md: set<int>)
    requires |d0.direct| == DIRECT_BLOCKS && |d.direct| == DIRECT_BLOCKS
  {
    && Extended(v0, bits0, Roots(d0, n), v, bits, Roots(d, m), md)
    && Free(bits) + FileSize(m) == Free(bits0) + FileSize(n)
    && (d.isDir, d.length, d.magic) == (d0.isDir, d0.length, d0.magic)
  }

  lemma PartlyDone(v0: View, bits0: seq<bool>, d0: InodeDisk, n: nat, m: nat,
                   v: View, bits: seq<bool>, d: InodeDisk, j: nat, md: set<int>)
    requires |d0.direct| == DIRECT_BLOCKS && |d.direct| == DIRECT_BLOCKS && j <= POINTERS
    requires n <= m <= MAX_SECTORS
    requires (m <= 123 && m <= j) || (m <= 251 && 124 <= j) || j == 125
    requires Partly(v0, bits0, d0, n, m, v, bits, d, j, md)
    ensures Reserved(v0, bits0, d0, n, v, bits, d, m, md)
    ensures Free(bits0) + FileSize(n) >= FileSize(m)
  {
    PointersDone(d, n, m, j);
    hide Extended, Untouched, Free, PointersSize, FileSize;
  }

  /** The length field plays no part in where the blocks are. */
  lemma ReservedExtended(v0: View, bits0: seq<bool>, d0: InodeDisk, n: nat, v: View, bits: seq<bool>, d: InodeDisk,
                         m: nat, length: nat, md: set<int>)
    requires |d0.direct| == DIRECT_BLOCKS && |d.direct| == DIRECT_BLOCKS
    requires Reserved(v0, bits0, d0, n, v, bits, d, m, md)
    ensures Extended(v0, bits0, Roots(d0, n), v, bits, Roots(d.(length := length), m), md)
    ensures Free(bits) + FileSize(m) == Free(bits0) + FileSize(n)
    ensures |v| == |v0|
  {
    assert Roots(d.(length := length), m) == Roots(d, m);
    hide Roots, Free, FileSize, ForestGrew;
  }

  lemma ReservedHeader(v0: View, bits0: seq<bool>, d0: InodeDisk, n: nat, v: View, bits: seq<bool>, d: InodeDisk,
                       m: nat, md: set<int>)
    requires |d0.direct| == DIRECT_BLOCKS && |d.direct| == DIRECT_BLOCKS
    requires Reserved(v0, bits0, d0, n, v, bits, d, m, md)
    ensures (d.isDir, d.length, d.magic) == (d0.isDir, d0.length, d0.magic)
  {
  }
}
