/** What growing a block tree means, and how growing one tree of a forest grows the forest. */
module Growth {
  import opened Sectors
  import opened BlockTree

  /** Between images v and w the tree r became r2: it kept every data block where it was, gained only
      sectors from g, and its new data blocks read as zeros. */
  ghost predicate Grew(v: View, r: Root, w: View, r2: Root, g: set<int>) {
    && TreeOk(w, r2)
    && r2.level == r.level <= 2
    && r2.count <= Cap(r.level)
    && r.count <= r2.count
    && Nodes(v, r) <= Nodes(w, r2) <= Nodes(v, r) + g
    && (forall k :: 0 <= k < r.count && k < Cap(r.level) ==> Leaf(w, r2, k) == Leaf(v, r, k))
    && (forall k :: r.count <= k < r2.count ==> FreshLeaf(w, r2, k, g))
  }

  ghost predicate FreshLeaf(w: View, r: Root, k: nat, g: set<int>)
    requires r.level <= 2 && k < Cap(r.level)
  {
    var x := Leaf(w, r, k) as int;
    x in g && 0 <= x < |w| && w[x] == Zeros()
  }

  /** Tree by tree growth of a forest, which gained exactly the sectors g. */
  ghost predicate ForestGrew(v: View, f: seq<Root>, w: View, f2: seq<Root>, g: set<int>) {
    && |f2| == |f|
    && (forall i :: 0 <= i < |f| ==> Grew(v, f[i], w, f2[i], g))
    && ForestOk(w, f2)
    && ForestNodes(w, f2) == ForestNodes(v, f) + g
  }

  lemma GrewOk(v: View, r: Root, w: View, r2: Root, g: set<int>)
    requires Grew(v, r, w, r2, g)
    ensures TreeOk(w, r2)
  {
  }

  lemma GrewSelf(v: View, r: Root)
    requires TreeOk(v, r)
    ensures Grew(v, r, v, r, {})
  {
  }

  lemma ForestGrewSelf(v: View, f: seq<Root>)
    requires ForestOk(v, f)
    ensures ForestGrew(v, f, v, f, {})
  {
    forall i | 0 <= i < |f|
      ensures Grew(v, f[i], v, f[i], {})
    {
      GrewSelf(v, f[i]);
    }
  }

  /** A growth stays one when later changes avoid the grown tree. */
  lemma GrewFrame(v: View, r: Root, w: View, r2: Root, g: set<int>, w2: View, g2: set<int>)
    requires Grew(v, r, w, r2, g)
    requires |w| == |w2| && forall x :: x in Nodes(w, r2) && 0 <= x < |w| ==> w2[x] == w[x]
    requires g <= g2
    ensures Grew(v, r, w2, r2, g2)
    ensures Nodes(w2, r2) == Nodes(w, r2)
  {
    hide TreeOk, Nodes, Index, Leaf;
    IndexInNodes(w, r2);
    TreeFrame(w, w2, r2);
    forall k | 0 <= k < r2.count
      ensures Leaf(w2, r2, k) == Leaf(w, r2, k)
      ensures r.count <= k ==> FreshLeaf(w2, r2, k, g2)
    {
      assert r.count <= k ==> FreshLeaf(w, r2, k, g);
      LeafFrame(w, w2, r2, k);
      LeafInTree(w, r2, k);
    }
  }

  /** Growing an as yet unchanged tree of a forest, after other trees of the forest grew. */
  lemma GrewThen(v: View, r: Root, w: View, r1: Root, g: set<int>, w2: View, r2: Root, h: set<int>)
    requires Grew(v, r, w, r1, g) && r1.count == r.count && Nodes(w, r1) == Nodes(v, r)
    requires Grew(w, r1, w2, r2, h)
    ensures Grew(v, r, w2, r2, g + h)
  {
    hide TreeOk, Nodes, Leaf;
    forall k | r.count <= k < r2.count
      ensures FreshLeaf(w2, r2, k, g + h)
    {
      assert FreshLeaf(w2, r2, k, h);
    }
  }

  /** One step of a loop that grows a forest tree by tree. */
  lemma ForestStep(v: View, f: seq<Root>, w: View, f1: seq<Root>, g: set<int>,
                   w2: View, i: nat, r2: Root, h: set<int>, d: set<int>)
    requires ForestOk(v, f)
    requires ForestGrew(v, f, w, f1, g)
    requires i < |f| && f1[i].count == f[i].count && Nodes(w, f1[i]) == Nodes(v, f[i])
    requires Grew(w, f1[i], w2, r2, h) && Nodes(w2, r2) == Nodes(w, f1[i]) + h
    requires AgreeOff(w, w2, h + Index(w, f1[i]) + d)
    requires h !! ForestNodes(w, f1) && d !! ForestNodes(w, f1)
    ensures ForestGrew(v, f, w2, f1[i := r2], g + h)
    ensures forall j :: 0 <= j < |f| && j != i ==> Nodes(w2, f1[j]) == Nodes(w, f1[j])
  {
    hide TreeOk, Nodes, Index, Leaf, FreshLeaf, Grew;
    var f2 := f1[i := r2];
    IndexInNodes(w, f1[i]);
    forall j | 0 <= j < |f|
      ensures Grew(v, f[j], w2, f2[j], g + h) && TreeOk(w2, f2[j])
      ensures Nodes(w2, f2[j]) == if j == i then Nodes(w, f1[i]) + h else Nodes(w, f1[j])
    {
      if j == i {
        GrewThen(v, f[i], w, f1[i], g, w2, r2, h);
      } else {
        assert Nodes(w, f1[i]) !! Nodes(w, f1[j]);
        InForest(w, f1, j);
        GrewFrame(v, f[j], w, f1[j], g, w2, g + h);
      }
      GrewOk(v, f[j], w2, f2[j], g + h);
    }
    ForestUnion(w, f1, w2, f2, i, h);
  }

  /** Adding sectors h, which no tree had, to tree i adds h to the forest and keeps the trees apart. */
  lemma ForestUnion(w: View, f1: seq<Root>, w2: View, f2: seq<Root>, i: nat, h: set<int>)
    requires |f1| == |f2| && i < |f1|
    requires ForestOk(w, f1)
    requires h !! ForestNodes(w, f1)
    requires forall j :: 0 <= j < |f1| ==> TreeOk(w2, f2[j])
    requires forall j :: 0 <= j < |f1| ==> Nodes(w2, f2[j]) == if j == i then Nodes(w, f1[i]) + h else Nodes(w, f1[j])
    ensures ForestOk(w2, f2)
    ensures ForestNodes(w2, f2) == ForestNodes(w, f1) + h
  {
    hide TreeOk, Nodes;
    forall a, b | 0 <= a < b < |f2|
      ensures Nodes(w2, f2[a]) !! Nodes(w2, f2[b])
    {
      assert Nodes(w, f1[a]) !! Nodes(w, f1[b]);
      InForest(w, f1, a);
      InForest(w, f1, b);
    }
    forall x
      ensures x in ForestNodes(w2, f2) <==> x in ForestNodes(w, f1) || x in h
    {
      if x in ForestNodes(w, f1) {
        var j :| 0 <= j < |f1| && x in Nodes(w, f1[j]);
        assert x in Nodes(w2, f2[j]);
      }
      if x in h {
        assert x in Nodes(w2, f2[i]);
      }
    }
  }

  lemma GrewLeaf(v: View, r: Root, w: View, r2: Root, g: set<int>, k: nat)
    requires Grew(v, r, w, r2, g)
    ensures k < r.count ==> k < Cap(r.level) && Leaf(w, r2, k) == Leaf(v, r, k)
    ensures r.count <= k < r2.count ==> FreshLeaf(w, r2, k, g)
  {
    hide TreeOk, Nodes, Leaf, FreshLeaf;
  }

  /** When the entries of an index block have grown and the block has been rewritten, its tree has grown. */
  lemma LiftGrowth(v: View, r: Root, w: View, r2: Root, g: set<int>)
    requires 0 < r.level <= 2 && r2.level == r.level && r.count <= r2.count
    requires ForestOk(v, Kids(v, r)) && ForestGrew(v, Kids(v, r), w, Kids(w, r2), g)
    requires 0 < r2.ptr < |w| && r2.ptr as int !in ForestNodes(w, Kids(w, r2))
    requires 0 < r2.count <= Cap(r.level)
    ensures TreeOk(w, r2)
    ensures Nodes(w, r2) == {r2.ptr as int} + ForestNodes(v, Kids(v, r)) + g
    ensures forall k :: 0 <= k < r.count ==> Leaf(w, r2, k) == Leaf(v, r, k)
    ensures forall k :: r.count <= k < r2.count ==> FreshLeaf(w, r2, k, g)
  {
    KidsForest(w, r2);
    hide TreeOk, Nodes, Leaf, ForestNodes, ForestOk, Grew, FreshLeaf;
    forall k | 0 <= k < r2.count
      ensures k < r.count ==> Leaf(w, r2, k) == Leaf(v, r, k)
      ensures r.count <= k ==> FreshLeaf(w, r2, k, g)
    {
      var i, j := Slot(r.level, k), Rest(r.level, k);
      LeafStep(v, r, k, r.count);
      LeafStep(w, r2, k, r2.count);
      LeafStep(v, r, k, r2.count);
      GrewLeaf(v, Kids(v, r)[i], w, Kids(w, r2)[i], g, j);
    }
  }
}
