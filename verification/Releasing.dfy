/** What giving back the sectors of a block tree does to the free map. */
module Releasing {
  import opened Sectors
  import opened BlockTree
  import opened Accounting

  /** Exactly the sectors ns were given back, size of them, and nothing but md changed on the device. */
  ghost predicate Released(v0: View, bits0: seq<bool>, ns: set<int>, size: nat, v: View, bits: seq<bool>,
    md: set<int>) {
    && |bits| == |bits0|
    && Used(bits) == Used(bits0) - ns
    && Free(bits) == Free(bits0) + size
    && AgreeOff(v0, v, md)
  }

  /** The trees before number i of a forest. */
  ghost function NodesBefore(v: View, f: seq<Root>, i: nat): set<int>
    requires i <= |f|
  {
    set j, x | 0 <= j < i && x in Nodes(v, f[j]) :: x
  }

  lemma ReleasedNone(v: View, bits: seq<bool>, f: seq<Root>, md: set<int>)
    ensures Released(v, bits, NodesBefore(v, f, 0), 0, v, bits, md)
  {
    hide Free, Used;
    assert NodesBefore(v, f, 0) == {};
  }

  /** The next tree is still whole, marked and readable. */
  lemma ReleaseNext(v0: View, bits0: seq<bool>, f: seq<Root>, i: nat, size: nat, v: View, bits: seq<bool>, md: set<int>)
    requires i < |f| && ForestOk(v0, f) && ForestNodes(v0, f) <= Used(bits0) && ForestNodes(v0, f) !! md
    requires Released(v0, bits0, NodesBefore(v0, f, i), size, v, bits, md)
    ensures TreeOk(v, f[i]) && Nodes(v, f[i]) == Nodes(v0, f[i])
    ensures Nodes(v, f[i]) <= Used(bits) && Nodes(v, f[i]) !! md
  {
    hide TreeOk, Nodes, Index, Free, Used, ForestNodes;
    InForest(v0, f, i);
    IndexInNodes(v0, f[i]);
    TreeFrame(v0, v, f[i]);
    assert Nodes(v0, f[i]) !! NodesBefore(v0, f, i) by {
      forall x | x in NodesBefore(v0, f, i)
        ensures x !in Nodes(v0, f[i])
      {
        var j :| 0 <= j < i && x in Nodes(v0, f[j]);
        assert Nodes(v0, f[j]) !! Nodes(v0, f[i]);
      }
    }
  }

  lemma ReleaseStep(v0: View, bits0: seq<bool>, f: seq<Root>, i: nat, size: nat, v: View, bits: seq<bool>,
                    more: nat, w: View, wbits: seq<bool>, md: set<int>)
    requires i < |f|
    requires Released(v0, bits0, NodesBefore(v0, f, i), size, v, bits, md)
    requires Released(v, bits, Nodes(v0, f[i]), more, w, wbits, md)
    ensures Released(v0, bits0, NodesBefore(v0, f, i + 1), size + more, w, wbits, md)
  {
    hide Nodes, Free, Used;
    forall x
      ensures x in NodesBefore(v0, f, i + 1) <==> x in NodesBefore(v0, f, i) || x in Nodes(v0, f[i])
    {
      if x in NodesBefore(v0, f, i + 1) {
        var j :| 0 <= j < i + 1 && x in Nodes(v0, f[j]);
      }
    }
  }

  /** Trees that lead nowhere own nothing. */
  lemma ReleaseSkip(v: View, f: seq<Root>, l: nat, l2: nat)
    requires l <= l2 <= |f| && forall j :: l <= j < l2 ==> f[j].count == 0
    ensures NodesBefore(v, f, l) == NodesBefore(v, f, l2)
  {
    forall j | l <= j < l2
      ensures Nodes(v, f[j]) == {}
    {
    }
    hide Nodes;
    forall x | x in NodesBefore(v, f, l2)
      ensures x in NodesBefore(v, f, l)
    {
      var j :| 0 <= j < l2 && x in Nodes(v, f[j]);
    }
  }

  lemma ReleaseAll(v: View, f: seq<Root>, l: nat)
    requires l <= |f| && forall j :: l <= j < |f| ==> f[j].count == 0
    ensures NodesBefore(v, f, l) == ForestNodes(v, f)
  {
    ReleaseSkip(v, f, l, |f|);
    hide Nodes;
  }

  lemma ReleasedFacts(v0: View, bits0: seq<bool>, ns: set<int>, size: nat, v: View, bits: seq<bool>, md: set<int>,
                      x: int)
    requires Released(v0, bits0, ns, size, v, bits, md)
    requires x in Used(bits0) && x !in ns
    ensures 0 <= x < |bits| && bits[x]
  {
    assert x in Used(bits);
  }

  lemma ReleaseRoot(v0: View, bits0: seq<bool>, ns: set<int>, size: nat, v: View, bits: seq<bool>, w: View, x: nat,
                    md: set<int>)
    requires Released(v0, bits0, ns, size, v, bits, md)
    requires x < |bits| && bits[x] && AgreeOff(v, w, md)
    ensures Released(v0, bits0, ns + {x as int}, size + 1, w, bits[x := false], md)
  {
    ClearOne(bits, x);
    hide Free, Used;
  }

  lemma RootUsed(v: View, bits: seq<bool>, r: Root)
    requires TreeOk(v, r) && r.count > 0 && Nodes(v, r) <= Used(bits)
    ensures 0 < r.ptr < |bits| && bits[r.ptr]
  {
    assert r.ptr as int in Nodes(v, r);
  }

  lemma LeafReleased(v: View, bits: seq<bool>, r: Root)
    requires TreeOk(v, r) && r.level == 0 && r.count > 0
    ensures r.count == 1 && Nodes(v, r) == {r.ptr as int}
  {
  }

  lemma ReleasedSelf(v: View, bits: seq<bool>, w: View, x: nat, md: set<int>)
    requires x < |bits| && bits[x] && AgreeOff(v, w, md)
    ensures Released(v, bits, {x as int}, 1, w, bits[x := false], md)
  {
    ClearOne(bits, x);
    hide Free, Used;
  }
}
