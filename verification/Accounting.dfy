/** How many sectors a file of n data sectors uses, index blocks included, and how many bits of the
    free map that is. */
module Accounting {
  import opened DiskFormat
  import opened BlockTree
  import opened FileTree
  import opened Bitmaps

  /** Below an index block with k data sectors under it. */
  function KidsSize(level: nat, k: nat): nat {
    if level == 2 then k + (k + 127) / 128 else k
  }

  /** A tree with k data sectors, its index blocks included. */
  function TreeSize(level: nat, k: nat): nat {
    KidsSize(level, k) + if level > 0 && k > 0 then 1 else 0
  }

  /** How many of n data sectors the first i entries of an index block cover. */
  function Covered(level: nat, n: nat, i: nat): (c: nat)
    ensures c <= n
  {
    var most := if level == 2 then 128 * i else i;
    if n < most then n else most
  }

  /** S(n): the sectors of a file of n data sectors. */
  function FileSize(n: nat): nat {
    n + (if n > 123 then 1 else 0) + (if n > 251 then 1 + (n - 251 + 127) / 128 else 0)
  }

  lemma CoveredStep(level: nat, n: nat, i: nat)
    requires 1 <= level <= 2 && n <= Cap(level) && i < PTRS
    ensures KidsSize(level, Covered(level, n, i + 1))
            == KidsSize(level, Covered(level, n, i)) + TreeSize(level - 1, Portion(n, i, level - 1))
    ensures Covered(level, n, 0) == 0 && Covered(level, n, PTRS) == n
  {
  }

  /** What growing from n to m costs in the first i entries never exceeds what it costs in all. */
  lemma CostMonotone(level: nat, n: nat, m: nat, i: nat)
    requires 1 <= level <= 2 && n <= m <= Cap(level) && i <= PTRS
    ensures KidsSize(level, Covered(level, m, i)) - KidsSize(level, Covered(level, n, i))
            <= KidsSize(level, m) - KidsSize(level, n)
  {
  }

  /** How much of S(n) the first j pointers of an inode account for. */
  function PointersSize(n: nat, j: nat): nat {
    if j <= 123 then Over(n, 0, j)
    else if j == 124 then Over(n, 0, 123) + TreeSize(1, Over(n, 123, 128))
    else Over(n, 0, 123) + TreeSize(1, Over(n, 123, 128)) + TreeSize(2, Over(n, 251, 16384))
  }

  lemma PointersSizeAll(n: nat)
    requires n <= MAX_SECTORS
    ensures PointersSize(n, 125) == FileSize(n)
    ensures FileSize(0) == 0
  {
  }

  lemma FileSizeMonotone(n: nat, m: nat, j: nat)
    requires n <= m <= MAX_SECTORS && j <= 125
    ensures PointersSize(m, j) - PointersSize(n, j) <= FileSize(m) - FileSize(n)
  {
    PointersSizeMonotone(n, m, j);
    PointersSizeAll(n);
    PointersSizeAll(m);
  }

  /** Each further pointer costs at least as much for the longer file. */
  lemma {:induction false} PointersSizeMonotone(n: nat, m: nat, j: nat)
    requires n <= m <= MAX_SECTORS && j <= 125
    ensures PointersSize(m, j) - PointersSize(n, j) <= PointersSize(m, 125) - PointersSize(n, 125)
  {
    TreeSizeMonotone(1, Over(n, 123, 128), Over(m, 123, 128));
    TreeSizeMonotone(2, Over(n, 251, 16384), Over(m, 251, 16384));
    hide TreeSize;
  }

  lemma TreeSizeMonotone(level: nat, n: nat, m: nat)
    requires n <= m
    ensures TreeSize(level, n) <= TreeSize(level, m)
  {
  }

  // ----- bits

  /** The sectors marked in the free map. */
  ghost function Used(bits: seq<bool>): set<int> {
    set x | 0 <= x < |bits| && bits[x]
  }

  /** The number of free sectors. */
  function Free(bits: seq<bool>): nat {
    Count(bits, false)
  }

  lemma {:induction false} CountUpdate(bits: seq<bool>, x: nat, value: bool)
    requires x < |bits|
    ensures Count(bits[x := value], false) ==
            Count(bits, false) + (if bits[x] && !value then 1 else 0) - (if !bits[x] && value then 1 else 0)
  {
    var last := |bits| - 1;
    var u := bits[x := value];
    if x == last {
      assert u[..last] == bits[..last];
    } else {
      assert u[..last] == bits[..last][x := value];
      CountUpdate(bits[..last], x, value);
    }
  }

  lemma {:induction false} NoneFree(bits: seq<bool>)
    ensures Count(bits, false) == 0 <==> forall x :: 0 <= x < |bits| ==> bits[x]
  {
    if bits != [] {
      var last := |bits| - 1;
      NoneFree(bits[..last]);
      assert forall x :: 0 <= x < last ==> bits[..last][x] == bits[x];
    }
  }

  lemma MarkOne(bits: seq<bool>, x: nat)
    requires x < |bits| && !bits[x]
    ensures Used(bits[x := true]) == Used(bits) + {x as int}
    ensures x as int !in Used(bits)
    ensures Free(bits[x := true]) == Free(bits) - 1
  {
    CountUpdate(bits, x, true);
  }

  lemma ClearOne(bits: seq<bool>, x: nat)
    requires x < |bits| && bits[x]
    ensures Used(bits[x := false]) == Used(bits) - {x as int}
    ensures Free(bits[x := false]) == Free(bits) + 1
  {
    CountUpdate(bits, x, false);
  }

  /** The set of used sectors determines the free map. */
  lemma UsedInjective(a: seq<bool>, b: seq<bool>)
    requires |a| == |b| && Used(a) == Used(b)
    ensures a == b
  {
    forall x | 0 <= x < |a|
      ensures a[x] == b[x]
    {
      assert a[x] <==> x in Used(a);
      assert b[x] <==> x in Used(b);
    }
  }

  /** The first free sector is marked, as bitmap_scan_and_flip does for groups of one. */
  lemma MarkFirst(bits: seq<bool>, x: nat)
    requires Group(bits, x, 1, false)
    ensures SetRange(bits, x, 1, true) == bits[x := true]
    ensures !bits[x] && Free(bits) > 0
    ensures Used(bits[x := true]) == Used(bits) + {x as int}
    ensures Free(bits[x := true]) == Free(bits) - 1
  {
    assert bits[x] == false;
    MarkOne(bits, x);
  }

  lemma NoGroup(bits: seq<bool>)
    requires forall i: nat :: 0 <= i ==> !Group(bits, i, 1, false)
    ensures Free(bits) == 0
  {
    forall x | 0 <= x < |bits|
      ensures bits[x]
    {
      assert !Group(bits, x, 1, false);
    }
    NoneFree(bits);
  }
}
