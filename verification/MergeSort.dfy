/** The sequence-level meaning of the natural merge sort in a3/fs/list.c: runs, merges and passes, what it
    means to sort stably, and why repeated passes do so. */
module MergeSort {
  import opened Sequences

  /** less is a strict weak order on the elements of d. */
  ghost predicate WeakOrder<T>(less: (T, T) -> bool, d: set<T>) {
    && (forall x :: x in d ==> !less(x, x))
    && (forall x, y :: x in d && y in d && less(x, y) ==> !less(y, x))
    && (forall x, y, z :: x in d && y in d && z in d && less(x, z) ==> less(x, y) || less(y, z))
  }

  /** is_sorted: no element is less than the one before it. */
  predicate Sorted<T>(less: (T, T) -> bool, s: seq<T>) {
    forall i :: 0 < i < |s| ==> !less(s[i], s[i - 1])
  }

  ghost predicate Before<T>(s: seq<T>, x: T, y: T) {
    exists i, j :: 0 <= i < j < |s| && s[i] == x && s[j] == y
  }

  /** t is a rearrangement of s that changes the order of two elements only if the later one is less. */
  ghost predicate Stably<T>(less: (T, T) -> bool, s: seq<T>, t: seq<T>) {
    && multiset(t) == multiset(s)
    && forall x, y :: x in s && y in s && Before(s, x, y) && !less(y, x) ==> Before(t, x, y)
  }

  /** inplace_merge: on ties the element of the first run goes first. */
  function Merge<T>(less: (T, T) -> bool, a: seq<T>, b: seq<T>): (m: seq<T>)
    ensures |m| == |a| + |b|
  {
    if a == [] then b
    else if b == [] then a
    else if !less(b[0], a[0]) then [a[0]] + Merge(less, a[1..], b)
    else [b[0]] + Merge(less, a, b[1..])
  }

  /** find_end_of_run: the length of the longest non-decreasing prefix. */
  function RunLength<T>(less: (T, T) -> bool, s: seq<T>): (n: nat)
    requires s != []
    ensures 1 <= n <= |s|
    ensures Sorted(less, s[..n])
    ensures n < |s| ==> less(s[n], s[n - 1])
  {
    if |s| == 1 || less(s[1], s[0]) then 1
    else
      var n := RunLength(less, s[1..]);
      assert forall i :: 0 <= i < n ==> s[1..][..n][i] == s[i + 1];
      n + 1
  }

  /** The number of maximal runs. */
  function Runs<T>(less: (T, T) -> bool, s: seq<T>): nat {
    if s == [] then 0 else 1 + Runs(less, s[RunLength(less, s)..])
  }

  /** One pass of list_sort: merge the first run with the second, the third with the fourth, and so on. */
  function Pass<T>(less: (T, T) -> bool, s: seq<T>): seq<T> {
    if s == [] then []
    else
      var n := RunLength(less, s);
      if n == |s| then s
      else
        var k := RunLength(less, s[n..]);
        Merge(less, s[..n], s[n..n + k]) + Pass(less, s[n + k..])
  }

  // ----- merging two runs

  lemma {:induction false} MergeElements<T>(less: (T, T) -> bool, a: seq<T>, b: seq<T>)
    ensures multiset(Merge(less, a, b)) == multiset(a) + multiset(b)
    decreases |a| + |b|
  {
    if a != [] && b != [] {
      if !less(b[0], a[0]) {
        assert a == [a[0]] + a[1..];
        MergeElements(less, a[1..], b);
      } else {
        assert b == [b[0]] + b[1..];
        MergeElements(less, a, b[1..]);
      }
    }
  }

  /** The first element of a merge is the first of one of the runs. */
  lemma {:induction false} MergeSorted<T>(less: (T, T) -> bool, a: seq<T>, b: seq<T>, d: set<T>)
    requires WeakOrder(less, d) && (forall x :: x in a ==> x in d) && (forall x :: x in b ==> x in d)
    requires Sorted(less, a) && Sorted(less, b)
    ensures Sorted(less, Merge(less, a, b))
    decreases |a| + |b|
  {
    if a != [] && b != [] {
      var m := Merge(less, a, b);
      if !less(b[0], a[0]) {
        SortedTail(less, a);
        MergeSorted(less, a[1..], b, d);
        assert a[0] in d && b[0] in d;
      } else {
        SortedTail(less, b);
        MergeSorted(less, a, b[1..], d);
        assert a[0] in d && b[0] in d;
      }
    }
  }

  lemma SortedTail<T>(less: (T, T) -> bool, s: seq<T>)
    requires Sorted(less, s) && s != []
    ensures Sorted(less, s[1..])
    ensures |s| > 1 ==> !less(s[1], s[0])
  {
    forall i | 0 < i < |s[1..]|
      ensures !less(s[1..][i], s[1..][i - 1])
    {
      assert !less(s[i + 1], s[i]);
    }
  }

  // ----- order in a sequence

  lemma BeforeConcat<T>(a: seq<T>, b: seq<T>, x: T, y: T)
    ensures Before(a + b, x, y) <==> Before(a, x, y) || Before(b, x, y) || (x in a && y in b)
  {
    var s := a + b;
    if Before(s, x, y) {
      var i, j :| 0 <= i < j < |s| && s[i] == x && s[j] == y;
      if j < |a| {
        assert a[i] == x && a[j] == y;
      } else if i < |a| {
        assert a[i] == x && b[j - |a|] == y;
      } else {
        assert b[i - |a|] == x && b[j - |a|] == y;
      }
    }
    if Before(a, x, y) {
      var i, j :| 0 <= i < j < |a| && a[i] == x && a[j] == y;
      assert s[i] == x && s[j] == y;
    }
    if Before(b, x, y) {
      var i, j :| 0 <= i < j < |b| && b[i] == x && b[j] == y;
      assert s[|a| + i] == x && s[|a| + j] == y;
    }
    if x in a && y in b {
      var i :| 0 <= i < |a| && a[i] == x;
      var j :| 0 <= j < |b| && b[j] == y;
      assert s[i] == x && s[|a| + j] == y;
    }
  }

  lemma BeforeIn<T>(s: seq<T>, x: T, y: T)
    requires Before(s, x, y)
    ensures x in s && y in s
  {
  }

  lemma NotBeforeOne<T>(e: T, x: T, y: T)
    ensures !Before([e], x, y)
  {
  }

  lemma {:induction false} FirstLeast<T>(less: (T, T) -> bool, s: seq<T>, d: set<T>, i: nat)
    requires WeakOrder(less, d) && (forall x :: x in s ==> x in d)
    requires Sorted(less, s) && i < |s|
    ensures !less(s[i], s[0])
  {
    assert s[i] in d && s[0] in d;
    if i > 0 {
      FirstLeast(less, s, d, i - 1);
      assert s[i - 1] in d;
    }
  }

  lemma AllGreater<T>(less: (T, T) -> bool, e: T, s: seq<T>, d: set<T>)
    requires WeakOrder(less, d) && (forall x :: x in s ==> x in d) && e in d
    requires Sorted(less, s) && s != [] && less(e, s[0])
    ensures forall x :: x in s ==> less(e, x)
  {
    forall i | 0 <= i < |s|
      ensures less(e, s[i])
    {
      FirstLeast(less, s, d, i);
      assert s[0] in d && s[i] in d;
    }
  }

  /** A merge changes the order of two elements only if the later one is less. */
  lemma {:induction false} MergeKeepsOrder<T>(less: (T, T) -> bool, a: seq<T>, b: seq<T>, d: set<T>, x: T, y: T)
    requires WeakOrder(less, d) && (forall z :: z in a ==> z in d) && (forall z :: z in b ==> z in d)
    requires Sorted(less, a)
    requires Before(a + b, x, y) && !less(y, x)
    ensures Before(Merge(less, a, b), x, y)
    decreases |a| + |b|
  {
    if a == [] {
      assert a + b == b;
    } else if b == [] {
      assert a + b == a;
    } else if !less(b[0], a[0]) {
      var rest := Merge(less, a[1..], b);
      assert a + b == [a[0]] + (a[1..] + b);
      BeforeConcat([a[0]], a[1..] + b, x, y);
      NotBeforeOne(a[0], x, y);
      BeforeConcat([a[0]], rest, x, y);
      SortedTail(less, a);
      if Before(a[1..] + b, x, y) {
        MergeKeepsOrder(less, a[1..], b, d, x, y);
      } else {
        MergeHas(less, a[1..], b, y);
      }
    } else {
      MergeKeepsSecond(less, a, b, d, x, y);
    }
  }

  lemma MergeHas<T>(less: (T, T) -> bool, a: seq<T>, b: seq<T>, y: T)
    requires y in a + b
    ensures y in Merge(less, a, b)
  {
    MergeElements(less, a, b);
    assert y in multiset(Merge(less, a, b));
  }

  lemma {:induction false} MergeKeepsSecond<T>(less: (T, T) -> bool, a: seq<T>, b: seq<T>, d: set<T>, x: T, y: T)
    requires WeakOrder(less, d) && (forall z :: z in a ==> z in d) && (forall z :: z in b ==> z in d)
    requires Sorted(less, a)
    requires a != [] && b != [] && less(b[0], a[0])
    requires Before(a + b, x, y) && !less(y, x)
    ensures Before(Merge(less, a, b), x, y)
    decreases |a| + |b|, 0
  {
    var b1 := b[1..];
    var rest := Merge(less, a, b1);
    BeforeConcat([b[0]], rest, x, y);
    BeforeConcat(a, b, x, y);
    BeforeConcat(a, b1, x, y);
    assert b == [b[0]] + b1;
    BeforeConcat([b[0]], b1, x, y);
    NotBeforeOne(b[0], x, y);
    if Before(a + b1, x, y) {
      MergeKeepsOrder(less, a, b1, d, x, y);
    } else {
      AllGreater(less, b[0], a, d);
      assert x == b[0] && y in b1;
      MergeHas(less, a, b1, y);
    }
  }

  lemma MergeStably<T>(less: (T, T) -> bool, a: seq<T>, b: seq<T>, d: set<T>)
    requires WeakOrder(less, d) && (forall z :: z in a ==> z in d) && (forall z :: z in b ==> z in d)
    requires Sorted(less, a)
    ensures Stably(less, a + b, Merge(less, a, b))
  {
    MergeElements(less, a, b);
    assert multiset(a + b) == multiset(a) + multiset(b);
    forall x, y | x in a + b && y in a + b && Before(a + b, x, y) && !less(y, x)
      ensures Before(Merge(less, a, b), x, y)
    {
      MergeKeepsOrder(less, a, b, d, x, y);
    }
  }

  // ----- stability composes

  lemma StablySelf<T>(less: (T, T) -> bool, s: seq<T>)
    ensures Stably(less, s, s)
  {
  }

  lemma SameElements<T>(s: seq<T>, t: seq<T>, x: T)
    requires multiset(s) == multiset(t)
    ensures x in s <==> x in t
  {
    assert x in s <==> x in multiset(s);
    assert x in t <==> x in multiset(t);
  }

  lemma StablyTrans<T>(less: (T, T) -> bool, s: seq<T>, t: seq<T>, u: seq<T>)
    requires Stably(less, s, t) && Stably(less, t, u)
    ensures Stably(less, s, u)
  {
    forall x, y | x in s && y in s && Before(s, x, y) && !less(y, x)
      ensures Before(u, x, y)
    {
      SameElements(s, t, x);
      SameElements(s, t, y);
    }
  }

  lemma StablyConcat<T>(less: (T, T) -> bool, s1: seq<T>, t1: seq<T>, s2: seq<T>, t2: seq<T>)
    requires Stably(less, s1, t1) && Stably(less, s2, t2)
    ensures Stably(less, s1 + s2, t1 + t2)
  {
    assert multiset(s1 + s2) == multiset(s1) + multiset(s2);
    assert multiset(t1 + t2) == multiset(t1) + multiset(t2);
    forall x, y | x in s1 + s2 && y in s1 + s2 && Before(s1 + s2, x, y) && !less(y, x)
      ensures Before(t1 + t2, x, y)
    {
      BeforeConcat(s1, s2, x, y);
      BeforeConcat(t1, t2, x, y);
      SameElements(s1, t1, x);
      SameElements(s2, t2, y);
      if Before(s1, x, y) {
        BeforeIn(s1, x, y);
      } else if Before(s2, x, y) {
        BeforeIn(s2, x, y);
      }
    }
  }

  lemma ThreeParts<T>(s: seq<T>, n: nat, k: nat)
    requires n + k <= |s|
    ensures s == s[..n] + s[n..n + k] + s[n + k..]
  {
  }

  lemma {:induction false} PassStably<T>(less: (T, T) -> bool, s: seq<T>, d: set<T>)
    requires WeakOrder(less, d) && (forall z :: z in s ==> z in d)
    ensures Stably(less, s, Pass(less, s))
    decreases |s|
  {
    hide Sorted, RunLength, Merge, Stably, WeakOrder, Runs;
    if s == [] {
      StablySelf(less, s);
    } else if RunLength(less, s) == |s| {
      PassLast(less, s);
      StablySelf(less, s);
    } else {
      hide Pass;
      var n := RunLength(less, s);
      var k := RunLength(less, s[n..]);
      var a, b, rest := s[..n], s[n..n + k], s[n + k..];
      ThreeParts(s, n, k);
      PassStep(less, s, n, k);
      MergeStably(less, a, b, d);
      PassStably(less, rest, d);
      StablyConcat(less, a + b, Merge(less, a, b), rest, Pass(less, rest));
    }
  }

  // ----- a pass halves the number of runs

  /** A longer sequence has no fewer runs than its tail. */
  lemma {:induction false} RunsTail<T>(less: (T, T) -> bool, s: seq<T>)
    requires s != []
    ensures Runs(less, s[1..]) <= Runs(less, s)
  {
    if |s| > 1 && !less(s[1], s[0]) {
      var n := RunLength(less, s[1..]);
      assert s[1..][n..] == s[n + 1..];
    }
  }

  lemma {:induction false} RunsDrop<T>(less: (T, T) -> bool, s: seq<T>, k: nat)
    requires k <= |s|
    ensures Runs(less, s[k..]) <= Runs(less, s)
    decreases k
  {
    if k == 0 {
      assert s[0..] == s;
    } else {
      RunsTail(less, s);
      RunsDrop(less, s[1..], k - 1);
      assert s[1..][k - 1..] == s[k..];
    }
  }

  lemma {:induction false} RunAtLeast<T>(less: (T, T) -> bool, a: seq<T>, b: seq<T>)
    requires Sorted(less, a) && a != []
    ensures RunLength(less, a + b) >= |a|
    decreases |a|
  {
    if |a| > 1 {
      SortedTail(less, a);
      RunAtLeast(less, a[1..], b);
      assert (a + b)[1..] == a[1..] + b;
      assert (a + b)[1] == a[1] && (a + b)[0] == a[0];
    }
  }

  /** Putting one run in front adds at most one run. */
  lemma RunsConcat<T>(less: (T, T) -> bool, a: seq<T>, b: seq<T>)
    requires Sorted(less, a) && a != []
    ensures Runs(less, a + b) <= 1 + Runs(less, b)
  {
    hide Sorted, RunLength, Runs;
    RunAtLeast(less, a, b);
    var n := RunLength(less, a + b);
    RunsFirst(less, a + b);
    DropConcat(a, b, n);
    RunsDrop(less, b, n - |a|);
  }

  lemma RunsFirst<T>(less: (T, T) -> bool, s: seq<T>)
    requires s != []
    ensures Runs(less, s) == 1 + Runs(less, s[RunLength(less, s)..])
  {
    hide Sorted, RunLength;
  }

  lemma DropConcat<T>(a: seq<T>, b: seq<T>, n: nat)
    requires |a| <= n <= |a| + |b|
    ensures (a + b)[n..] == b[n - |a|..]
  {
  }

  lemma {:induction false} PassRuns<T>(less: (T, T) -> bool, s: seq<T>, d: set<T>)
    requires WeakOrder(less, d) && (forall z :: z in s ==> z in d)
    ensures Runs(less, Pass(less, s)) <= (Runs(less, s) + 1) / 2
    decreases |s|
  {
    if s != [] {
      var n := RunLength(less, s);
      if n < |s| {
        var k := RunLength(less, s[n..]);
        var a, b, rest := s[..n], s[n..n + k], s[n + k..];
        assert s[n..][..k] == b && s[n..][k..] == rest;
        MergeSorted(less, a, b, d);
        PassRuns(less, rest, d);
        RunsConcat(less, Merge(less, a, b), Pass(less, rest));
      }
    }
  }

  lemma RunsPositive<T>(less: (T, T) -> bool, s: seq<T>)
    ensures s != [] ==> Runs(less, s) >= 1
  {
  }

  lemma OneRun<T>(less: (T, T) -> bool, s: seq<T>)
    requires Runs(less, s) <= 1
    ensures Sorted(less, s)
  {
    if s != [] {
      var n := RunLength(less, s);
      RunsPositive(less, s[n..]);
      assert s[..n] == s;
    }
  }

  // ----- stable sorting has one result

  lemma {:induction false} SortedAll<T>(less: (T, T) -> bool, s: seq<T>, d: set<T>, i: nat, j: nat)
    requires WeakOrder(less, d) && (forall x :: x in s ==> x in d)
    requires Sorted(less, s) && i < j < |s|
    ensures !less(s[j], s[i])
    decreases j
  {
    assert s[i] in d && s[j] in d && s[j - 1] in d;
    if i < j - 1 {
      SortedAll(less, s, d, i, j - 1);
    }
  }

  /** Two stable sortings of the same distinct elements put any two of them in the same order. */
  lemma SameOrder<T>(less: (T, T) -> bool, s: seq<T>, t: seq<T>, u: seq<T>, d: set<T>, x: T, y: T)
    requires WeakOrder(less, d) && (forall z :: z in s ==> z in d)
    requires Distinct(s) && Distinct(t) && Distinct(u)
    requires Stably(less, s, t) && Stably(less, s, u) && Sorted(less, t) && Sorted(less, u)
    requires Before(t, x, y)
    ensures Before(u, x, y)
  {
    BeforeIn(t, x, y);
    SameElements(s, t, x);
    SameElements(s, t, y);
    SameElements(s, u, x);
    SameElements(s, u, y);
    forall z | z in t
      ensures z in d
    {
      SameElements(s, t, z);
    }
    forall z | z in u
      ensures z in d
    {
      SameElements(s, u, z);
    }
    var i, j :| 0 <= i < j < |t| && t[i] == x && t[j] == y;
    SortedAll(less, t, d, i, j);
    Ordered(s, x, y);
    Ordered(u, x, y);
    if Before(s, y, x) && !less(x, y) {
      NotBoth(t, x, y);
    }
    if Before(u, y, x) {
      var k, l :| 0 <= k < l < |u| && u[k] == y && u[l] == x;
      SortedAll(less, u, d, k, l);
    }
  }

  lemma Ordered<T>(s: seq<T>, x: T, y: T)
    requires x in s && y in s && x != y
    ensures Before(s, x, y) || Before(s, y, x)
  {
    var i :| 0 <= i < |s| && s[i] == x;
    var j :| 0 <= j < |s| && s[j] == y;
    assert i < j || j < i;
  }

  lemma NotBoth<T>(s: seq<T>, x: T, y: T)
    requires Distinct(s)
    ensures !(Before(s, x, y) && Before(s, y, x))
  {
  }

  /** Sorting stably has exactly one result. */
  lemma StableSortUnique<T>(less: (T, T) -> bool, s: seq<T>, t: seq<T>, u: seq<T>, d: set<T>)
    requires WeakOrder(less, d) && (forall z :: z in s ==> z in d)
    requires Distinct(s) && Distinct(t) && Distinct(u)
    requires Stably(less, s, t) && Stably(less, s, u) && Sorted(less, t) && Sorted(less, u)
    ensures t == u
  {
    forall x, y | x in t && y in t && Before(t, x, y)
      ensures Before(u, x, y)
    {
      SameOrder(less, s, t, u, d, x, y);
    }
    forall x
      ensures x in t <==> x in u
    {
      SameElements(s, t, x);
      SameElements(s, u, x);
    }
    assert |multiset(t)| == |multiset(u)|;
    SameSequence(t, u);
  }

  lemma NotBeforeFirst<T>(u: seq<T>, x: T)
    requires Distinct(u) && u != []
    ensures !Before(u, x, u[0])
  {
  }

  /** Distinct elements in the same order make the same sequence. */
  lemma {:induction false} SameSequence<T>(t: seq<T>, u: seq<T>)
    requires Distinct(t) && Distinct(u) && |t| == |u|
    requires forall x :: x in t <==> x in u
    requires forall x, y :: x in t && y in t && Before(t, x, y) ==> Before(u, x, y)
    ensures t == u
  {
    if t != [] {
      var x := t[0];
      NotBeforeFirst(u, x);
      assert u[0] in t;
      var j :| 0 <= j < |t| && t[j] == u[0];
      assert j > 0 ==> Before(t, x, u[0]);
      var t1, u1 := t[1..], u[1..];
      forall y
        ensures y in t1 <==> y in u1
      {
        assert y in t1 <==> y in t && y != x;
        assert y in u1 <==> y in u && y != x;
      }
      forall y, z | y in t1 && z in t1 && Before(t1, y, z)
        ensures Before(u1, y, z)
      {
        assert t == [x] + t1 && u == [x] + u1;
        BeforeConcat([x], t1, y, z);
        BeforeConcat([x], u1, y, z);
        NotBeforeOne(x, y, z);
      }
      SameSequence(t1, u1);
    }
  }

  /** A sorted prefix that cannot be extended is the first run. */
  lemma {:induction false} RunIs<T>(less: (T, T) -> bool, s: seq<T>, n: nat)
    requires 1 <= n <= |s|
    requires forall i :: 0 < i < n ==> !less(s[i], s[i - 1])
    requires n < |s| ==> less(s[n], s[n - 1])
    ensures RunLength(less, s) == n
  {
    if n > 1 {
      var t := s[1..];
      forall i | 0 < i < n - 1
        ensures !less(t[i], t[i - 1])
      {
        assert !less(s[i + 1], s[i]);
      }
      assert n < |s| ==> less(t[n - 1], t[n - 2]);
      RunIs(less, t, n - 1);
    }
  }

  lemma PassLast<T>(less: (T, T) -> bool, s: seq<T>)
    requires s != [] && RunLength(less, s) == |s|
    ensures Pass(less, s) == s && Runs(less, s) == 1
  {
    assert s[|s|..] == [];
  }

  lemma PassStep<T>(less: (T, T) -> bool, s: seq<T>, n: nat, k: nat)
    requires s != [] && n == RunLength(less, s) && n < |s| && k == RunLength(less, s[n..])
    ensures Pass(less, s) == Merge(less, s[..n], s[n..n + k]) + Pass(less, s[n + k..])
    ensures Runs(less, s) == 2 + Runs(less, s[n + k..])
  {
    hide Merge, RunLength, Sorted, Pass, Runs;
    PassFirst(less, s, n, k);
    RunsFirst(less, s);
    RunsFirst(less, s[n..]);
    assert s[n..][k..] == s[n + k..];
  }

  lemma PassFirst<T>(less: (T, T) -> bool, s: seq<T>, n: nat, k: nat)
    requires s != [] && n == RunLength(less, s) && n < |s| && k == RunLength(less, s[n..])
    ensures Pass(less, s) == Merge(less, s[..n], s[n..n + k]) + Pass(less, s[n + k..])
  {
    hide Merge, RunLength, Sorted, Runs;
  }

  function Pow2(n: nat): nat {
    if n == 0 then 1 else 2 * Pow2(n - 1)
  }

  /** One comparison of inplace_merge, within a longer sequence. */
  lemma MergeStep<T>(less: (T, T) -> bool, s: seq<T>, p: nat, q: nat, j: nat)
    requires p < q < j <= |s|
    ensures Merge(less, s[p..q], s[q..j])
         == if !less(s[q], s[p]) then [s[p]] + Merge(less, s[p + 1..q], s[q..j])
            else [s[q]] + Merge(less, s[p..q], s[q + 1..j])
  {
    assert s[p..q][1..] == s[p + 1..q];
    assert s[q..j][1..] == s[q + 1..j];
  }
}
