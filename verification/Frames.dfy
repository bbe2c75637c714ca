/** Three-cell frames in a row of cells, and why first fit never fragments them (a3/shellmemory.c). */
module Frames {
  import opened Sequences

  /** struct memory_struct. The name "none" marks a free cell. */
  datatype Cell = Cell(name: string, value: string)

  const FREE := "none"

  /** The three cells from i on are there and free. */
  predicate FreeAt(c: seq<Cell>, i: nat) {
    i + 3 <= |c| && c[i].name == FREE && c[i + 1].name == FREE && c[i + 2].name == FREE
  }

  predicate NoneFree(c: seq<Cell>) {
    forall i :: 0 <= i <= |c| - 3 ==> !FreeAt(c, i)
  }

  /** What frame_alloc looks for: the first place where three cells in a row are free. */
  predicate FirstFit(c: seq<Cell>, i: nat) {
    FreeAt(c, i) && forall k :: 0 <= k < i ==> !FreeAt(c, k)
  }

  /** The used cells of c are frames that start at these multiples of three. */
  ghost predicate Framed(c: seq<Cell>, bases: seq<int>) {
    && Distinct(bases)
    && (forall b :: b in bases ==> 0 <= b && b % 3 == 0 && b + 3 <= |c|)
    && (forall x :: 0 <= x < |c| ==> (c[x].name != FREE <==> x - x % 3 in bases))
  }

  /** d is c with the names of cells b to b + 3 replaced. */
  predicate Renamed(c: seq<Cell>, d: seq<Cell>, b: nat, name: string) {
    && |d| == |c| && b + 3 <= |c|
    && forall x :: 0 <= x < |c| ==> if b <= x < b + 3 then d[x].name == name else d[x] == c[x]
  }

  /** A frame is free as soon as one of its cells is. */
  lemma WholeFrame(c: seq<Cell>, bases: seq<int>, b: nat, x: nat)
    requires Framed(c, bases) && b % 3 == 0 && b <= x < b + 3 <= |c|
    ensures FreeAt(c, b) <==> b !in bases
    ensures FreeAt(c, b) <==> c[x].name == FREE
  {
    forall y | b <= y < b + 3
      ensures y - y % 3 == b
    {
    }
  }

  /** First fit only finds whole frames, although it tries every cell. */
  lemma FirstFitAligned(c: seq<Cell>, bases: seq<int>, i: nat)
    requires Framed(c, bases) && FirstFit(c, i)
    ensures i % 3 == 0 && i !in bases
  {
    WholeFrame(c, bases, i - i % 3, i);
  }

  /** Taking a free frame. */
  lemma TakeFrame(c: seq<Cell>, bases: seq<int>, i: nat, d: seq<Cell>, name: string)
    requires Framed(c, bases) && FirstFit(c, i) && Renamed(c, d, i, name) && name != FREE
    ensures Framed(d, [i] + bases)
  {
    FirstFitAligned(c, bases, i);
    var t := [i] + bases;
    forall x | 0 <= x < |d|
      ensures d[x].name != FREE <==> x - x % 3 in t
    {
      assert i <= x < i + 3 <==> x - x % 3 == i;
    }
    forall k, l | 0 <= k < l < |t|
      ensures t[k] != t[l]
    {
      assert t[l] == bases[l - 1];
    }
  }

  /** Giving one back. */
  lemma GiveFrame(c: seq<Cell>, bases: seq<int>, k: nat, d: seq<Cell>)
    requires Framed(c, bases) && k < |bases| && bases[k] >= 0 && Renamed(c, d, bases[k], FREE)
    ensures Framed(d, bases[..k] + bases[k + 1..])
  {
    var b, t := bases[k], bases[..k] + bases[k + 1..];
    assert b in bases;
    forall y
      ensures y in t <==> y in bases && y != b
    {
      assert bases == bases[..k] + [b] + bases[k + 1..];
    }
    forall x | 0 <= x < |d|
      ensures d[x].name != FREE <==> x - x % 3 in t
    {
      assert b <= x < b + 3 <==> x - x % 3 == b;
    }
  }

  /** When no frame was free, the frame just given back is the one that is found. */
  lemma FrameReused(c: seq<Cell>, bases: seq<int>, k: nat, d: seq<Cell>, i: nat)
    requires Framed(c, bases) && NoneFree(c) && k < |bases| && bases[k] >= 0 && Renamed(c, d, bases[k], FREE)
    requires FirstFit(d, i)
    ensures i == bases[k]
  {
    hide Framed, Renamed;
    GiveFrame(c, bases, k, d);
    FirstFitAligned(d, bases[..k] + bases[k + 1..], i);
    RenamedSize(c, d, bases[k], FREE);
    WholeFrame(c, bases, i, i);
    assert bases == bases[..k] + [bases[k]] + bases[k + 1..];
  }

  lemma RenamedSize(c: seq<Cell>, d: seq<Cell>, b: nat, name: string)
    requires Renamed(c, d, b, name)
    ensures |d| == |c|
  {
  }

  lemma FramedDistinct(c: seq<Cell>, bases: seq<int>)
    requires Framed(c, bases)
    ensures Distinct(bases)
  {
  }

  lemma FramedAt(c: seq<Cell>, bases: seq<int>, i: nat, j: nat)
    requires Framed(c, bases) && i <= j < |bases|
    ensures bases[i] >= 0 && bases[i] % 3 == 0 && bases[j] >= 0 && bases[j] % 3 == 0
    ensures i < j ==> bases[i] != bases[j]
  {
    assert bases[i] in bases && bases[j] in bases;
  }

  lemma FramedOrder(c: seq<Cell>, s: seq<int>, t: seq<int>)
    requires Framed(c, s) && Distinct(t) && forall b :: b in s <==> b in t
    ensures Framed(c, t)
  {
  }

  /** Frame numbers 0 to n - 1. */
  ghost function Below(n: nat): (s: set<int>)
    ensures |s| == n && forall x :: x in s <==> 0 <= x < n
  {
    if n == 0 then {} else Below(n - 1) + {n - 1}
  }

  ghost function Numbers(bases: seq<int>): set<int> {
    set i | 0 <= i < |bases| :: bases[i] / 3
  }

  lemma {:induction false} NumbersSize(bases: seq<int>)
    requires Distinct(bases) && forall i :: 0 <= i < |bases| ==> bases[i] % 3 == 0
    ensures |Numbers(bases)| == |bases|
  {
    if bases != [] {
      var n := |bases| - 1;
      var rest, b := bases[..n], bases[n];
      NumbersSize(rest);
      assert forall i :: 0 <= i < n ==> rest[i] / 3 != b / 3;
      assert Numbers(bases) == Numbers(rest) + {b / 3};
    }
  }

  lemma NumbersAre(c: seq<Cell>, bases: seq<int>, k: int)
    requires Framed(c, bases)
    ensures k in Numbers(bases) <==> 3 * k in bases
    ensures k in Numbers(bases) ==> k in Below(|c| / 3)
  {
    if k in Numbers(bases) {
      var i :| 0 <= i < |bases| && bases[i] / 3 == k;
      assert bases[i] in bases;
    }
    if 3 * k in bases {
      var i :| 0 <= i < |bases| && bases[i] == 3 * k;
      assert bases[i] / 3 == k;
    }
  }

  /** No three cells in a row are free exactly when every frame that fits is taken. */
  lemma FullExactly(c: seq<Cell>, bases: seq<int>)
    requires Framed(c, bases)
    ensures |bases| <= |c| / 3
    ensures NoneFree(c) <==> |bases| == |c| / 3
  {
    var n := |c| / 3;
    forall i | 0 <= i < |bases|
      ensures bases[i] % 3 == 0
    {
      assert bases[i] in bases;
    }
    hide Framed, NoneFree, Numbers;
    NumbersSize(bases);
    forall k: int
      ensures k in Numbers(bases) ==> k in Below(n)
    {
      NumbersAre(c, bases, k);
    }
    Contained(Numbers(bases), Below(n));
    if |bases| == n {
      AllTaken(c, bases);
    }
    if NoneFree(c) {
      NoneLeft(c, bases);
      Contained(Below(n), Numbers(bases));
    }
  }

  lemma AllTaken(c: seq<Cell>, bases: seq<int>)
    requires Framed(c, bases) && Numbers(bases) == Below(|c| / 3)
    ensures NoneFree(c)
  {
    hide Framed, Numbers;
    forall i | 0 <= i <= |c| - 3
      ensures !FreeAt(c, i)
    {
      var k := i / 3;
      NumbersAre(c, bases, k);
      WholeFrame(c, bases, 3 * k, i);
    }
  }

  lemma NoneLeft(c: seq<Cell>, bases: seq<int>)
    requires Framed(c, bases) && NoneFree(c)
    ensures Below(|c| / 3) <= Numbers(bases)
  {
    hide Framed, FreeAt, Numbers;
    forall k | k in Below(|c| / 3)
      ensures k in Numbers(bases)
    {
      NumbersAre(c, bases, k);
      WholeFrame(c, bases, 3 * k, 3 * k);
    }
  }

  lemma Contained(s: set<int>, t: set<int>)
    requires s <= t
    ensures |s| <= |t|
    ensures |s| == |t| ==> s == t
  {
    assert |t - s| == |t| - |s|;
  }
}
