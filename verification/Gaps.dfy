/** Which sector a growing file is refused first: with s sectors in all, a data sector or an index block. */
module Gaps {
  import opened DiskFormat
  import opened BlockTree
  import opened FileTree
  import opened Accounting

  /** A tree of n data sectors that is to reach m and has s sectors to do it with stops short at an index block: it
      reaches some k data sectors, and the next one would cost at least two sectors more than there are. */
  ghost predicate TreeGap(level: nat, s: nat, n: nat, m: nat) {
    exists k :: n <= k < m && TreeSize(level, k) <= s && s + 2 <= TreeSize(level, k + 1)
  }

  /** The same for the trees below one index block. */
  ghost predicate KidsGap(level: nat, s: nat, n: nat, m: nat) {
    exists k :: n <= k < m && KidsSize(level, k) <= s && s + 2 <= KidsSize(level, k + 1)
  }

  /** The same for a file. */
  ghost predicate FileGap(s: nat, n: nat, m: nat) {
    exists k :: n <= k < m && FileSize(k) <= s && s + 2 <= FileSize(k + 1)
  }

  lemma LeafGap(s: nat, n: nat, m: nat)
    ensures !TreeGap(0, s, n, m)
  {
  }

  /** An index block that has to be taken first, or is there already. */
  lemma BlockGap(level: nat, n: nat, m: nat, f: nat)
    requires 1 <= level <= 2 && n <= m && f + TreeSize(level, n) < TreeSize(level, m)
    ensures n > 0 ==> (TreeGap(level, f + TreeSize(level, n), n, m) <==> KidsGap(level, f + KidsSize(level, n), n, m))
    ensures n == 0 && f > 0 ==> (TreeGap(level, f, n, m) <==> KidsGap(level, f - 1, n, m))
    ensures n == 0 && f == 0 ==> TreeGap(level, f, n, m)
  {
    forall k: nat
      ensures TreeSize(level, k) == KidsSize(level, k) + if k > 0 then 1 else 0
    {
    }
    assert TreeSize(level, 0) == 0 && TreeSize(level, 1) >= 2;
    hide KidsSize, TreeSize;
  }

  lemma KidsSizeGrows(x: nat, y: nat)
    ensures x <= y ==> KidsSize(2, x) <= KidsSize(2, y)
  {
  }

  /** The part of the sizes that lies below one entry of a double indirect block. */
  lemma EntrySizes(i: nat, k: nat)
    requires k <= 128
    ensures KidsSize(2, 128 * i + k) == 129 * i + TreeSize(1, k)
  {
  }

  lemma EntrySum(n: nat, m: nat, i: nat, f0: nat, fi: nat)
    requires n <= m && i < PTRS && Portion(n, i, 1) < Portion(m, i, 1)
    requires fi + KidsSize(2, Covered(2, m, i)) == f0 + KidsSize(2, Covered(2, n, i))
    ensures f0 + KidsSize(2, n) == fi + TreeSize(1, Portion(n, i, 1)) + 129 * i
    ensures n < 128 * i + Portion(m, i, 1) <= m && n <= 128 * i + Portion(n, i, 1)
    ensures Portion(n, i, 1) > 0 ==> n == 128 * i + Portion(n, i, 1)
  {
  }

  /** The entry of an index block that is refused a sector tells which sector the whole tree is refused. */
  lemma EntryGap(level: nat, n: nat, m: nat, i: nat, f0: nat, fi: nat)
    requires 1 <= level <= 2 && n <= m && i < PTRS
    requires fi + KidsSize(level, Covered(level, m, i)) == f0 + KidsSize(level, Covered(level, n, i))
    requires fi + TreeSize(level - 1, Portion(n, i, level - 1)) < TreeSize(level - 1, Portion(m, i, level - 1))
    ensures TreeGap(level - 1, fi + TreeSize(level - 1, Portion(n, i, level - 1)), Portion(n, i, level - 1),
                    Portion(m, i, level - 1))
            <==> KidsGap(level, f0 + KidsSize(level, n), n, m)
  {
    if level == 2 {
      var a, b := Portion(n, i, 1), Portion(m, i, 1);
      var t := fi + TreeSize(1, a);
      EntrySum(n, m, i, f0, fi);
      hide KidsSize, TreeSize, Covered, Portion, TreeGap, KidsGap;
      if TreeGap(1, t, a, b) {
        GapOut(n, m, i, a, b, t);
      }
      if KidsGap(2, t + 129 * i, n, m) {
        GapIn(n, m, i, a, b, t);
      }
    }
  }

  lemma GapOut(n: nat, m: nat, i: nat, a: nat, b: nat, t: nat)
    requires a < b <= 128 && n <= 128 * i + a && 128 * i + b <= m && TreeGap(1, t, a, b)
    ensures KidsGap(2, t + 129 * i, n, m)
  {
    hide KidsSize, TreeSize;
    var k :| a <= k < b && TreeSize(1, k) <= t && t + 2 <= TreeSize(1, k + 1);
    EntrySizes(i, k);
    EntrySizes(i, k + 1);
    var x := 128 * i + k;
    assert KidsSize(2, x) <= t + 129 * i && t + 129 * i + 2 <= KidsSize(2, x + 1);
  }

  lemma GapIn(n: nat, m: nat, i: nat, a: nat, b: nat, t: nat)
    requires a < b <= 128 && (a > 0 ==> n == 128 * i + a) && t < TreeSize(1, b) && KidsGap(2, t + 129 * i, n, m)
    ensures TreeGap(1, t, a, b)
  {
    hide KidsSize, TreeSize;
    var x: nat :| n <= x < m && KidsSize(2, x) <= t + 129 * i && t + 129 * i + 2 <= KidsSize(2, x + 1);
    KidsSizeGrows(x + 1, 128 * i);
    KidsSizeGrows(128 * i + b, x);
    EntrySizes(i, 0);
    EntrySizes(i, b);
    NoSize();
    var k := x - 128 * i;
    EntrySizes(i, k);
    EntrySizes(i, k + 1);
  }

  lemma NoSize()
    ensures TreeSize(1, 0) == 0
  {
  }

  // ----- the pointers of an inode

  lemma FileSizeGrows(x: nat, y: nat)
    ensures x <= y ==> FileSize(x) <= FileSize(y)
  {
  }

  /** Where the blocks below pointer 123 or 124 of an inode start, in data sectors and in sectors in all. */
  function Base(level: nat): nat {
    if level == 1 then 123 else 251
  }

  function Before(level: nat): nat {
    if level == 1 then 123 else 252
  }

  lemma PointerSizes(level: nat, k: nat)
    requires 1 <= level <= 2 && k <= Cap(level)
    ensures FileSize(Base(level) + k) == Before(level) + TreeSize(level, k)
  {
  }

  lemma PointerSum(level: nat, n: nat, m: nat, f0: nat, fj: nat)
    requires 1 <= level <= 2 && n <= m <= MAX_SECTORS
    requires Over(n, Base(level), Cap(level)) < Over(m, Base(level), Cap(level))
    requires fj + PointersSize(m, 122 + level) == f0 + PointersSize(n, 122 + level)
    ensures var a, b := Over(n, Base(level), Cap(level)), Over(m, Base(level), Cap(level));
            && f0 + FileSize(n) == Before(level) + fj + TreeSize(level, a)
            && b <= Cap(level) && Base(level) + b <= m && n <= Base(level) + a && (a > 0 ==> n == Base(level) + a)
  {
  }

  lemma PointerGapOut(level: nat, n: nat, m: nat, a: nat, b: nat, t: nat)
    requires 1 <= level <= 2 && a < b <= Cap(level) && n <= Base(level) + a && Base(level) + b <= m
      && TreeGap(level, t, a, b)
    ensures FileGap(Before(level) + t, n, m)
  {
    hide TreeSize, FileSize, Base, Before;
    var k: nat :| a <= k < b && TreeSize(level, k) <= t && t + 2 <= TreeSize(level, k + 1);
    PointerSizes(level, k);
    PointerSizes(level, k + 1);
    var x := Base(level) + k;
    assert FileSize(x) <= Before(level) + t && Before(level) + t + 2 <= FileSize(x + 1);
  }

  lemma PointerGapIn(level: nat, n: nat, m: nat, a: nat, b: nat, t: nat)
    requires 1 <= level <= 2 && a < b <= Cap(level) && (a > 0 ==> n == Base(level) + a) && t < TreeSize(level, b)
    requires FileGap(Before(level) + t, n, m)
    ensures TreeGap(level, t, a, b)
  {
    hide TreeSize, FileSize, Base, Before;
    var x: nat :| n <= x < m && FileSize(x) <= Before(level) + t && Before(level) + t + 2 <= FileSize(x + 1);
    FileSizeGrows(x + 1, Base(level));
    FileSizeGrows(Base(level) + b, x);
    PointerSizes(level, 0);
    PointerSizes(level, b);
    NoTree(level);
    var k := x - Base(level);
    PointerSizes(level, k);
    PointerSizes(level, k + 1);
  }

  lemma NoTree(level: nat)
    ensures TreeSize(level, 0) == 0
  {
  }

  /** The indirect pointer that is refused a sector tells which sector the file is refused. */
  lemma PointerGap(level: nat, n: nat, m: nat, f0: nat, fj: nat)
    requires 1 <= level <= 2 && n <= m <= MAX_SECTORS
    requires fj + PointersSize(m, 122 + level) == f0 + PointersSize(n, 122 + level)
    requires fj + TreeSize(level, Over(n, Base(level), Cap(level))) < TreeSize(level, Over(m, Base(level), Cap(level)))
    ensures var a, b := Over(n, Base(level), Cap(level)), Over(m, Base(level), Cap(level));
            TreeGap(level, fj + TreeSize(level, a), a, b) <==> FileGap(f0 + FileSize(n), n, m)
  {
    var a, b := Over(n, Base(level), Cap(level)), Over(m, Base(level), Cap(level));
    var t := fj + TreeSize(level, a);
    if b <= a {
      TreeSizeMonotone(level, b, a);
    }
    PointerSum(level, n, m, f0, fj);
    hide TreeSize, FileSize, Over, Base, Before, TreeGap, FileGap, PointersSize;
    if TreeGap(level, t, a, b) {
      PointerGapOut(level, n, m, a, b, t);
    }
    if FileGap(Before(level) + t, n, m) {
      PointerGapIn(level, n, m, a, b, t);
    }
  }

  /** A direct pointer is only ever refused a data sector. */
  lemma DirectGap(n: nat, m: nat, j: nat, f0: nat)
    requires n <= m <= MAX_SECTORS && j < 123 && Over(n, j, 1) < Over(m, j, 1)
    requires PointersSize(m, j) == f0 + PointersSize(n, j)
    ensures !FileGap(f0 + FileSize(n), n, m)
  {
    assert f0 + FileSize(n) == j;
    forall k: nat | FileSize(k) <= j
      ensures FileSize(k + 1) < j + 2
    {
      FileSizeGrows(124, k);
    }
  }

  lemma NoGap(s: nat, n: nat, length: int)
    requires length < 0
    ensures !FileGap(s, n, SectorsFor(length))
  {
  }

  /** An index block is due once a file has this many data sectors. */
  predicate IndexDue(n: nat) {
    n == 123 || (n >= 251 && (n - 251) % 128 == 0)
  }

  /** The gaps of a file are where an index block is due: after 123 data sectors, and from 251 on after every 128. */
  lemma GapsAt(s: nat, n: nat, m: nat)
    ensures FileGap(s, n, m) <==>
      exists k :: n <= k < m && IndexDue(k)
        && FileSize(k) <= s <= FileSize(k + 1) - 2
  {
    forall k: nat
      ensures FileSize(k + 1) >= FileSize(k) + 2 <==> IndexDue(k)
    {
    }
    hide FileSize;
  }

  /** On a full device a growth is refused an index block exactly if one is due at once. */
  lemma FullGap(n: nat, m: nat)
    ensures FileGap(FileSize(n), n, m) <==> n < m && IndexDue(n)
  {
    forall k: nat
      ensures k > n ==> FileSize(k) > FileSize(n)
    {
    }
    assert FileSize(n + 1) >= FileSize(n) + 2 <==> IndexDue(n);
    hide FileSize;
  }
}
