/** Doubly linked lists with two sentinels, relinked in place (a3/fs/list.c). */
module IntrusiveLists {
  import opened MergeSort
  import opened Sequences

  /** struct list_elem, and NODE of a3/linked_list.c. */
  class Elem {
    var prev: Elem?
    var next: Elem?
    /** The structure that holds the element, which list_entry finds, or the data of the NODE. */
    const outer: object?

    constructor (o: object?)
      ensures outer == o
    {
      outer := o;
      prev := null;
      next := null;
    }
  }

  ghost function Members(s: seq<Elem>): set<Elem> {
    set e | e in s
  }

  /** Neighbours in s are linked to each other. */
  ghost predicate Linked(s: seq<Elem>)
    reads s
  {
    forall i :: 0 <= i < |s| - 1 ==> s[i].next == s[i + 1] && s[i + 1].prev == s[i]
  }

  ghost predicate Ended(s: seq<Elem>)
    requires s != []
    reads s
  {
    s[0].prev == null && s[|s| - 1].next == null
  }

  /** s is a whole list with its two sentinels. */
  ghost predicate Chain(s: seq<Elem>)
    reads s
  {
    |s| >= 2 && Distinct(s) && Linked(s) && Ended(s)
  }

  lemma LinkedConcat(s: seq<Elem>, t: seq<Elem>)
    requires s != [] && t != []
    ensures Linked(s + t) <==> Linked(s) && Linked(t) && s[|s| - 1].next == t[0] && t[0].prev == s[|s| - 1]
  {
    var u := s + t;
    if Linked(u) {
      assert u[|s| - 1].next == u[|s|];
      forall i | 0 <= i < |t| - 1
        ensures t[i].next == t[i + 1] && t[i + 1].prev == t[i]
      {
        assert u[|s| + i].next == u[|s| + i + 1] && u[|s| + i + 1].prev == u[|s| + i];
      }
      forall i | 0 <= i < |s| - 1
        ensures s[i].next == s[i + 1] && s[i + 1].prev == s[i]
      {
        assert u[i].next == u[i + 1] && u[i + 1].prev == u[i];
      }
    }
  }

  ghost predicate Apart(s: seq<Elem>, t: seq<Elem>) {
    forall i, j :: 0 <= i < |s| && 0 <= j < |t| ==> s[i] != t[j]
  }

  lemma ApartConcat(s: seq<Elem>, t: seq<Elem>, u: seq<Elem>)
    ensures Apart(s, t + u) <==> Apart(s, t) && Apart(s, u)
    ensures Apart(t + u, s) <==> Apart(t, s) && Apart(u, s)
  {
    var v := t + u;
    assert forall i :: 0 <= i < |v| ==> v[i] == if i < |t| then t[i] else u[i - |t|];
    if Apart(s, v) || Apart(v, s) {
      assert forall i :: 0 <= i < |t| ==> t[i] == v[i];
      forall i, j | 0 <= i < |u| && 0 <= j < |s|
        ensures u[i] != s[j]
      {
        assert u[i] == v[|t| + i];
      }
    }
  }

  lemma ApartSym(s: seq<Elem>, t: seq<Elem>)
    ensures Apart(s, t) <==> Apart(t, s)
  {
  }

  lemma ApartIn(s: seq<Elem>, t: seq<Elem>, e: Elem)
    requires Apart(s, t) && e in s
    ensures e !in t
  {
  }

  lemma DistinctConcat(s: seq<Elem>, t: seq<Elem>)
    ensures Distinct(s + t) <==> Distinct(s) && Distinct(t) && Apart(s, t)
  {
    var u := s + t;
    if Distinct(u) {
      forall i, j | 0 <= i < j < |s|
        ensures s[i] != s[j]
      {
        assert u[i] == s[i] && u[j] == s[j];
      }
      forall i, j | 0 <= i < |s| && 0 <= j < |t|
        ensures s[i] != t[j]
      {
        assert u[i] == s[i] && u[|s| + j] == t[j];
      }
      forall i, j | 0 <= i < j < |t|
        ensures t[i] != t[j]
      {
        assert u[|s| + i] == t[i] && u[|s| + j] == t[j];
      }
    }
    if Distinct(s) && Distinct(t) && Apart(s, t) {
      forall i, j | 0 <= i < j < |u|
        ensures u[i] != u[j]
      {
        assert i < |s| ==> u[i] == s[i];
        assert |s| <= i ==> u[i] == t[i - |s|];
        assert j < |s| ==> u[j] == s[j];
        assert |s| <= j ==> u[j] == t[j - |s|];
      }
    }
  }

  /** The first half of list_splice: take the run from first to last out of the list a + run + b. */
  method Cut(first: Elem, last: Elem, ghost a: seq<Elem>, ghost run: seq<Elem>, ghost b: seq<Elem>)
    requires a != [] && run != [] && b != [] && Chain(a + run + b)
    requires first == run[0] && last == run[|run| - 1]
    modifies Members(a + b)
    ensures Chain(a + b) && Linked(run)
  {
    LinkedConcat(a, run + b);
    LinkedConcat(run, b);
    DistinctConcat(a, run + b);
    DistinctConcat(run, b);
    ApartConcat(a, run, b);
    assert a + run + b == a + (run + b);
    first.prev.next := last.next;
    last.next.prev := first.prev;
    forall i | 0 <= i < |a| - 1
      ensures a[i].next == a[i + 1] && a[i + 1].prev == a[i]
    {
      assert a[i] != a[|a| - 1];
    }
    LinkedConcat(a, b);
    DistinctConcat(a, b);
  }

  /** The second half of list_splice, and list_insert: put a run of linked elements just before an element of a list. */
  method Paste(before: Elem, first: Elem, last: Elem, ghost c: seq<Elem>, ghost run: seq<Elem>, ghost d: seq<Elem>)
    requires c != [] && run != [] && d != [] && Chain(c + d) && Distinct(run) && Linked(run)
    requires Apart(run, c) && Apart(run, d)
    requires before == d[0] && first == run[0] && last == run[|run| - 1]
    modifies Members(c + run + d)
    ensures Chain(c + run + d)
  {
    LinkedConcat(c, d);
    DistinctConcat(c, d);
    first.prev := before.prev;
    last.next := before;
    before.prev.next := first;
    before.prev := last;
    forall i | 0 <= i < |c| - 1
      ensures c[i].next == c[i + 1] && c[i + 1].prev == c[i]
    {
      assert c[i] != c[|c| - 1];
    }
    forall i | 0 <= i < |d| - 1
      ensures d[i].next == d[i + 1] && d[i + 1].prev == d[i]
    {
      assert d[i + 1] != d[0];
    }
    forall i | 0 <= i < |run| - 1
      ensures run[i].next == run[i + 1] && run[i + 1].prev == run[i]
    {
      assert run[i] != last && run[i + 1] != first;
    }
    LinkedConcat(c, run + d);
    LinkedConcat(run, d);
    DistinctConcat(c, run + d);
    DistinctConcat(run, d);
    assert c + run + d == c + (run + d);
  }

  /** list_splice: move the run from first up to last, excluded, out of the list a + run + b to just before the
      element d[0] of the list c + d, which is a + b itself or another list. */
  method Splice(before: Elem, first: Elem, last: Elem,
                ghost a: seq<Elem>, ghost run: seq<Elem>, ghost b: seq<Elem>, ghost c: seq<Elem>, ghost d: seq<Elem>)
    requires a != [] && b != [] && c != [] && d != [] && Chain(a + run + b)
    requires c + d == a + b || (Chain(c + d) && Apart(a + run + b, c + d))
    requires before == d[0] && first == (run + b)[0] && last == b[0]
    modifies Members(a + run + b) + Members(c + d)
    ensures Chain(c + run + d)
    ensures c + d != a + b ==> Chain(a + b)
  {
    if first == last {
      NotInRun(a, run, b);
      assert run == [];
      assert c + run + d == c + d && a + run + b == a + b;
      return;
    }
    assert run != [];
    SpliceApart(a, run, b, c, d);
    LinkedConcat(a + run, b);
    hide Distinct, Linked, Ended, Apart, Members;
    var end := last.prev;
    Cut(first, end, a, run, b);
    Paste(before, first, end, c, run, d);
  }

  lemma SpliceApart(a: seq<Elem>, run: seq<Elem>, b: seq<Elem>, c: seq<Elem>, d: seq<Elem>)
    requires Distinct(a + run + b)
    requires c + d == a + b || Apart(a + run + b, c + d)
    ensures Distinct(run) && Apart(run, c) && Apart(run, d)
    ensures Members(a + b) <= Members(a + run + b) && Members(c + run + d) <= Members(a + run + b) + Members(c + d)
    ensures c + d != a + b ==> Members(a + b) !! Members(c + run + d) && Members(a + b) !! Members(c + d)
  {
    DistinctConcat(a + run, b);
    DistinctConcat(a, run);
    ApartConcat(b, a, run);
    ApartSym(a, run);
    ApartConcat(run, a, b);
    ApartConcat(run, c, d);
    ApartConcat(c + d, a + run, b);
    ApartConcat(c + d, a, run);
    if c + d != a + b {
      forall e: Elem | e in a + b
        ensures e !in c + run + d
      {
        if e in run {
          ApartIn(run, a + b, e);
        } else {
          ApartIn(a + run + b, c + d, e);
        }
      }
    }
  }

  lemma NotInRun(a: seq<Elem>, run: seq<Elem>, b: seq<Elem>)
    requires b != [] && Distinct(a + run + b)
    ensures forall i :: 0 <= i < |run| ==> run[i] != b[0]
  {
    forall i | 0 <= i < |run|
      ensures run[i] != b[0]
    {
      assert (a + run + b)[|a| + i] == run[i] && (a + run + b)[|a| + |run|] == b[0];
    }
  }

  /** s with element q moved to just before element p */
  ghost function Moved(s: seq<Elem>, p: nat, q: nat): (t: seq<Elem>)
    requires p < q < |s|
    ensures |t| == |s|
  {
    s[..p] + [s[q]] + s[p..q] + s[q + 1..]
  }

  /** Moving element q forward to position p, seen from around the range p to j. */
  lemma MovedOne(s: seq<Elem>, p: nat, q: nat, j: nat)
    requires p < q < j <= |s|
    ensures var t := Moved(s, p, q);
            && t[j..] == s[j..] && t[..p + 1] == s[..p] + [s[q]]
            && t[p + 1..q + 1] == s[p..q] && t[q + 1..j] == s[q + 1..j]
  {
  }

  /** A spine cut around element q, around element p, and after the move. */
  lemma SpineParts(h: Elem, e: seq<Elem>, t: Elem, p: nat, q: nat)
    requires p < q < |e|
    ensures var a, b, c, d := [h] + e[..q], e[q + 1..] + [t], [h] + e[..p], e[p..q] + e[q + 1..] + [t];
            && a + [e[q]] + b == [h] + e + [t] && c + d == a + b && c + [e[q]] + d == [h] + Moved(e, p, q) + [t]
    ensures Members([h] + Moved(e, p, q) + [t]) == Members([h] + e + [t])
    ensures Members([h] + e[..p] + (e[p..q] + e[q + 1..] + [t])) <= Members([h] + e + [t])
  {
    assert e == e[..p] + e[p..q] + [e[q]] + e[q + 1..];
  }

  lemma MovedSpine(h: Elem, e: seq<Elem>, t: Elem, p: nat, q: nat, j: nat)
    requires p < q < j <= |e|
    ensures var s, r := [h] + e + [t], [h] + Moved(e, p, q) + [t];
            r[p + 2] == s[p + 1] && r[q + 2] == s[q + 2] && r[j + 1] == s[j + 1]
  {
  }

  /** The state of inplace_merge: the elements before p are in place, p to q and q to j are still to be merged. */
  function Merging<T>(less: (T, T) -> bool, s: seq<T>, p: nat, q: nat, j: nat): seq<T>
    requires p <= q <= j <= |s|
  {
    s[..p] + Merge(less, s[p..q], s[q..j]) + s[j..]
  }

  lemma Regroup<T>(a: seq<T>, x: T, m: seq<T>, b: seq<T>)
    ensures (a + [x]) + m + b == a + ([x] + m) + b
  {
  }

  lemma TakenFirst(less: (Elem, Elem) -> bool, s: seq<Elem>, p: nat, q: nat, j: nat)
    requires p < q < j <= |s| && !less(s[q], s[p])
    ensures Merging(less, s, p + 1, q, j) == Merging(less, s, p, q, j)
  {
    hide Merge;
    MergeStep(less, s, p, q, j);
    Regroup(s[..p], s[p], Merge(less, s[p + 1..q], s[q..j]), s[j..]);
    assert s[..p + 1] == s[..p] + [s[p]];
  }

  lemma TakenSecond(less: (Elem, Elem) -> bool, s: seq<Elem>, p: nat, q: nat, j: nat)
    requires p < q < j <= |s| && less(s[q], s[p])
    ensures Merging(less, Moved(s, p, q), p + 1, q + 1, j) == Merging(less, s, p, q, j)
  {
    hide Merge, Moved;
    MergeStep(less, s, p, q, j);
    MovedOne(s, p, q, j);
    Regroup(s[..p], s[q], Merge(less, s[p..q], s[q + 1..j]), s[j..]);
  }

  lemma Merged(less: (Elem, Elem) -> bool, s: seq<Elem>, p: nat, q: nat, j: nat)
    requires p <= q <= j <= |s| && (p == q || q == j)
    ensures s == Merging(less, s, p, q, j)
  {
  }

  lemma SubSlice<T>(s: seq<T>, p: nat, i: nat, j: nat)
    requires p <= |s| && i <= j <= |s| - p
    ensures s[p..][i..j] == s[p + i..p + j]
    ensures s[p..][..j] == s[p..p + j]
  {
  }

  lemma SubDrop<T>(s: seq<T>, p: nat, i: nat)
    requires p <= |s| && i <= |s| - p
    ensures s[p..][i..] == s[p + i..]
  {
  }

  lemma MergingParts<T>(less: (T, T) -> bool, s: seq<T>, p: nat, m: nat, j: nat)
    requires p <= m <= j <= |s|
    ensures var t := Merging(less, s, p, m, j);
            |t| == |s| && t[..j] == s[..p] + Merge(less, s[p..m], s[m..j]) && t[j..] == s[j..]
  {
    hide Merge;
  }

  /** Where find_end_of_run stops, starting from element i and going no further than j. */
  function RunEnd<T>(less: (T, T) -> bool, s: seq<T>, i: nat, j: nat): (e: nat)
    requires i < j <= |s|
    ensures i < e <= j
  {
    i + RunLength(less, s[i..j])
  }

  /** The state of a pass: the elements before p are output, the rest is still to be read. */
  function Passing<T>(less: (T, T) -> bool, s: seq<T>, p: nat): seq<T>
    requires p <= |s|
  {
    s[..p] + Pass(less, s[p..])
  }

  /** The runs that a pass still has to output. */
  function OutputsLeft<T>(less: (T, T) -> bool, s: seq<T>, p: nat): nat
    requires p <= |s|
  {
    (Runs(less, s[p..]) + 1) / 2
  }

  /** A pass reads the list up to its end in one last run. */
  lemma PassEnds<T>(less: (T, T) -> bool, s: seq<T>, p: nat)
    requires p < |s| && RunEnd(less, s, p, |s|) == |s|
    ensures Passing(less, s, p) == s && OutputsLeft(less, s, p) == 1
  {
    assert s[p..|s|] == s[p..];
    PassLast(less, s[p..]);
    hide Pass, Runs, RunLength;
  }

  lemma PassBounds<T>(less: (T, T) -> bool, s: seq<T>)
    ensures Passing(less, s, 0) == Pass(less, s) && OutputsLeft(less, s, 0) == (Runs(less, s) + 1) / 2
    ensures Passing(less, s, |s|) == s && OutputsLeft(less, s, |s|) == 0
  {
    assert s[0..] == s && s[|s|..] == [];
  }

  /** The first two runs of what is left of a pass. */
  lemma TwoRuns<T>(less: (T, T) -> bool, s: seq<T>, p: nat, m: nat, j: nat)
    requires p < m < j <= |s| && m == RunEnd(less, s, p, |s|) && j == RunEnd(less, s, m, |s|)
    ensures Sorted(less, s[p..m]) && Sorted(less, s[m..j])
    ensures Pass(less, s[p..]) == Merge(less, s[p..m], s[m..j]) + Pass(less, s[j..])
    ensures Runs(less, s[p..]) == 2 + Runs(less, s[j..])
  {
    hide Merge, Pass, Runs, RunLength, Sorted;
    var u, v, k, l := s[p..], s[m..], m - p, j - m;
    assert s[p..|s|] == u && s[m..|s|] == v;
    SubDrop(s, p, k);
    SubDrop(s, p, k + l);
    SubSlice(s, p, 0, k);
    SubSlice(s, p, k, k + l);
    SubSlice(s, m, 0, l);
    PassStep(less, u, k, l);
  }

  /** Merging them outputs one run. */
  lemma PassMore<T>(less: (T, T) -> bool, s: seq<T>, p: nat, m: nat, j: nat)
    requires p < m < j <= |s| && m == RunEnd(less, s, p, |s|) && j == RunEnd(less, s, m, |s|)
    ensures var t := Merging(less, s, p, m, j);
            && |t| == |s| && Passing(less, t, j) == Passing(less, s, p)
            && OutputsLeft(less, t, j) + 1 == OutputsLeft(less, s, p)
  {
    hide Merge, Pass, Runs, RunLength, Sorted, Merging, RunEnd;
    TwoRuns(less, s, p, m, j);
    MergingParts(less, s, p, m, j);
  }

  lemma RunEndIs<T>(less: (T, T) -> bool, s: seq<T>, i: nat, j: nat, e: nat)
    requires i < e <= j <= |s|
    requires forall t :: i < t < e ==> !less(s[t], s[t - 1])
    requires e < j ==> less(s[e], s[e - 1])
    ensures RunEnd(less, s, i, j) == e
  {
    RunIs(less, s[i..j], e - i);
  }

  lemma StablyMembers(less: (Elem, Elem) -> bool, s: seq<Elem>, t: seq<Elem>)
    requires Stably(less, s, t)
    ensures Members(t) == Members(s)
  {
    forall e: Elem
      ensures e in Members(t) <==> e in Members(s)
    {
      SameElements(s, t, e);
    }
  }

  /** What a pass over e does for the sorting of s. */
  lemma PassGoal(less: (Elem, Elem) -> bool, s: seq<Elem>, e: seq<Elem>, t: seq<Elem>, outputs: nat)
    requires WeakOrder(less, Members(s)) && Stably(less, s, e)
    requires t == Pass(less, e) && outputs == (Runs(less, e) + 1) / 2
    ensures Stably(less, s, t) && Runs(less, t) <= outputs
    ensures outputs <= 1 ==> Sorted(less, t)
  {
    StablyMembers(less, s, e);
    assert forall z :: z in e ==> z in Members(s);
    hide Stably, WeakOrder, Members, Pass, Runs, Sorted;
    PassStably(less, e, Members(s));
    PassRuns(less, e, Members(s));
    StablyTrans(less, s, e, Pass(less, e));
    if outputs <= 1 {
      OneRun(less, t);
    }
  }

  /** After this many passes of a sort that began with runs runs, at most bound are left. */
  ghost predicate Halved(runs: int, passes: nat, bound: int) {
    (bound - 1) * Pow2(passes) <= runs - 1
  }

  lemma PassCount(runs: int, passes: nat, bound: int, r: nat, outputs: nat)
    requires Halved(runs, passes, bound) && r <= bound && outputs == (r + 1) / 2
    ensures Halved(runs, passes + 1, outputs)
    ensures bound > 1 ==> Pow2(passes) < runs
    ensures outputs > 1 ==> outputs < r
  {
    var h, k := outputs - 1, Pow2(passes);
    assert h * (2 * k) == (2 * h) * k;
    MulMono(2 * h, bound - 1, k);
    if bound > 1 {
      MulMono(1, bound - 1, k);
    }
  }

  /** The state e of a sort of s after some passes, unless it is finished. */
  ghost predicate Sorting(less: (Elem, Elem) -> bool, s: seq<Elem>, e: seq<Elem>, passes: nat, bound: nat) {
    && Stably(less, s, e) && Runs(less, e) <= bound && Halved(Runs(less, s), passes, bound)
    && (passes > 0 ==> bound > 1)
  }

  lemma SortStart(less: (Elem, Elem) -> bool, s: seq<Elem>)
    ensures Sorting(less, s, s, 0, Runs(less, s))
  {
    StablySelf(less, s);
    hide Stably, Runs;
  }

  lemma SortStep(less: (Elem, Elem) -> bool, s: seq<Elem>, e: seq<Elem>, t: seq<Elem>, passes: nat, bound: nat,
                 outputs: nat)
    requires WeakOrder(less, Members(s)) && Sorting(less, s, e, passes, bound)
    requires t == Pass(less, e) && outputs == (Runs(less, e) + 1) / 2
    ensures outputs > 1 ==> Sorting(less, s, t, passes + 1, outputs) && Runs(less, t) < Runs(less, e)
    ensures outputs <= 1 ==> Stably(less, s, t) && Sorted(less, t) && (passes == 0 || Pow2(passes) < Runs(less, s))
  {
    hide WeakOrder, Stably, Runs, Halved, Pass, Sorted, Members;
    PassGoal(less, s, e, t, outputs);
    PassCount(Runs(less, s), passes, bound, Runs(less, e), outputs);
  }

  lemma MulMono(a: int, b: int, k: nat)
    requires a <= b
    ensures a * k <= b * k
  {
  }

  lemma MembersWith(c: seq<Elem>, d: seq<Elem>, e: Elem)
    ensures Members(c + [e] + d) == Members(c + d) + {e}
    ensures e !in Members(c + d) ==> Apart([e], c) && Apart([e], d)
    ensures Distinct(c + [e] + d) ==> e !in Members(c + d)
  {
    if Distinct(c + [e] + d) {
      DistinctConcat(c + [e], d);
      DistinctConcat(c, [e]);
      ApartConcat(d, c, [e]);
      assert e == [e][0];
    }
    forall i | 0 <= i < |c| ensures c[i] in c + d { }
    forall i | 0 <= i < |d| ensures d[i] in c + d { }
  }

  /** Inserting after every element that e does not precede keeps a list sorted, with e last among its equals. */
  lemma OrderedInsert(less: (Elem, Elem) -> bool, s: seq<Elem>, e: Elem, i: nat)
    requires WeakOrder(less, Members(s) + {e}) && Sorted(less, s) && i <= |s|
    requires forall k :: 0 <= k < i ==> !less(e, s[k])
    requires i < |s| ==> less(e, s[i])
    ensures Sorted(less, s[..i] + [e] + s[i..])
    ensures Stably(less, s + [e], s[..i] + [e] + s[i..])
  {
    var d, a, b := Members(s) + {e}, s[..i], s[i..];
    assert s == a + b && s + [e] == a + (b + [e]) && a + [e] + b == a + ([e] + b);
    assert forall x :: x in b ==> x in d;
    OrderedSorted(less, s, e, i);
    if b != [] {
      assert Sorted(less, b);
      AllGreater(less, e, b, d);
    }
    hide Sorted, Stably, Members;
    ToFront(less, b, e);
    StablySelf(less, a);
    StablyConcat(less, a, a, b + [e], [e] + b);
  }

  lemma OrderedSorted(less: (Elem, Elem) -> bool, s: seq<Elem>, e: Elem, i: nat)
    requires WeakOrder(less, Members(s) + {e}) && Sorted(less, s) && i <= |s|
    requires forall k :: 0 <= k < i ==> !less(e, s[k])
    requires i < |s| ==> less(e, s[i])
    ensures Sorted(less, s[..i] + [e] + s[i..])
  {
    var t := s[..i] + [e] + s[i..];
    forall k | 0 < k < |t|
      ensures !less(t[k], t[k - 1])
    {
      if k == i + 1 {
        assert t[k] == s[i] && s[i] in Members(s);
      } else if k > i {
        assert t[k] == s[k - 1] && t[k - 1] == s[k - 2];
      }
    }
  }

  lemma ToFront(less: (Elem, Elem) -> bool, b: seq<Elem>, e: Elem)
    requires forall x :: x in b ==> less(e, x)
    ensures Stably(less, b + [e], [e] + b)
  {
    forall x, y | x in b + [e] && y in b + [e] && Before(b + [e], x, y) && !less(y, x)
      ensures Before([e] + b, x, y)
    {
      BeforeConcat(b, [e], x, y);
      BeforeConcat([e], b, x, y);
      NotBeforeOne(e, x, y);
    }
  }

  /** list_unique: the first of each group of adjacent equal elements. */
  function Kept<T>(less: (T, T) -> bool, s: seq<T>): (k: seq<T>)
    decreases |s|
  {
    if |s| <= 1 then s
    else if !less(s[0], s[1]) && !less(s[1], s[0]) then Kept(less, [s[0]] + s[2..])
    else [s[0]] + Kept(less, s[1..])
  }

  /** list_unique: all the others. */
  function Dropped<T>(less: (T, T) -> bool, s: seq<T>): seq<T>
    decreases |s|
  {
    if |s| <= 1 then []
    else if !less(s[0], s[1]) && !less(s[1], s[0]) then [s[1]] + Dropped(less, [s[0]] + s[2..])
    else Dropped(less, s[1..])
  }

  lemma DropOne<T>(s: seq<T>, k: seq<T>, d: seq<T>)
    requires |s| >= 2 && multiset(k) + multiset(d) == multiset([s[0]] + s[2..])
    ensures multiset(k) + multiset([s[1]] + d) == multiset(s)
  {
    var a, b, c := [s[0]], [s[1]], s[2..];
    var m := multiset(a + c);
    assert m == multiset(a) + multiset(c);
    assert s == a + b + c;
    assert multiset(s) == multiset(b) + m;
    assert multiset(b + d) == multiset(b) + multiset(d);
    assert multiset(k) + (multiset(b) + multiset(d)) == multiset(b) + (multiset(k) + multiset(d));
  }

  lemma KeepOne<T>(s: seq<T>, k: seq<T>, d: seq<T>)
    requires s != [] && multiset(k) + multiset(d) == multiset(s[1..])
    ensures multiset([s[0]] + k) + multiset(d) == multiset(s)
  {
    assert s == [s[0]] + s[1..];
  }

  lemma {:induction false} KeptFirst<T>(less: (T, T) -> bool, s: seq<T>)
    requires s != []
    ensures Kept(less, s) != [] && Kept(less, s)[0] == s[0]
    decreases |s|
  {
    if |s| > 1 && !less(s[0], s[1]) && !less(s[1], s[0]) {
      KeptFirst(less, [s[0]] + s[2..]);
    }
  }

  /** list_unique loses no element. */
  lemma {:induction false} KeptAndDropped<T>(less: (T, T) -> bool, s: seq<T>)
    ensures multiset(Kept(less, s)) + multiset(Dropped(less, s)) == multiset(s)
    decreases |s|
  {
    if |s| <= 1 {
    } else if !less(s[0], s[1]) && !less(s[1], s[0]) {
      var t := [s[0]] + s[2..];
      KeptAndDropped(less, t);
      DropOne(s, Kept(less, t), Dropped(less, t));
    } else {
      KeptAndDropped(less, s[1..]);
      KeepOne(s, Kept(less, s[1..]), Dropped(less, s[1..]));
    }
  }

  /** Of a sorted list, list_unique leaves a strictly increasing one. */
  lemma {:induction false} KeptIncreases<T>(less: (T, T) -> bool, s: seq<T>, d: set<T>)
    requires WeakOrder(less, d) && (forall x :: x in s ==> x in d) && Sorted(less, s)
    ensures forall i :: 0 < i < |Kept(less, s)| ==> less(Kept(less, s)[i - 1], Kept(less, s)[i])
    decreases |s|
  {
    if |s| > 1 {
      if !less(s[0], s[1]) && !less(s[1], s[0]) {
        assert s[0] in d && s[1] in d && (|s| > 2 ==> s[2] in d);
        KeptIncreases(less, [s[0]] + s[2..], d);
      } else {
        SortedTail(less, s);
        KeptFirst(less, s[1..]);
        KeptIncreases(less, s[1..], d);
      }
    }
  }

  /** Of any list, list_unique drops only elements equal to one it keeps. */
  lemma {:induction false} DroppedHasEqual<T>(less: (T, T) -> bool, s: seq<T>, x: T) returns (y: T)
    requires x in Dropped(less, s)
    ensures y in Kept(less, s) && !less(x, y) && !less(y, x)
    decreases |s|
  {
    if !less(s[0], s[1]) && !less(s[1], s[0]) {
      var t := [s[0]] + s[2..];
      if x == s[1] {
        KeptFirst(less, t);
        y := s[0];
      } else {
        y := DroppedHasEqual(less, t, x);
      }
    } else {
      y := DroppedHasEqual(less, s[1..], x);
    }
  }

  /** The state of list_unique: the elements before p are kept. */
  function Keeping<T>(less: (T, T) -> bool, s: seq<T>, p: nat): seq<T>
    requires p <= |s|
  {
    s[..p] + Kept(less, s[p..])
  }

  function Dropping<T>(less: (T, T) -> bool, s: seq<T>, p: nat): seq<T>
    requires p <= |s|
  {
    Dropped(less, s[p..])
  }

  lemma KeepStart<T>(less: (T, T) -> bool, s: seq<T>)
    ensures Keeping(less, s, 0) == Kept(less, s) && Dropping(less, s, 0) == Dropped(less, s)
    ensures s == [] ==> Kept(less, s) == [] && Dropped(less, s) == []
  {
    assert s[0..] == s;
  }

  lemma KeepNext<T>(less: (T, T) -> bool, s: seq<T>, p: nat)
    requires p + 1 < |s| && (less(s[p], s[p + 1]) || less(s[p + 1], s[p]))
    ensures Keeping(less, s, p + 1) == Keeping(less, s, p)
    ensures Dropping(less, s, p + 1) == Dropping(less, s, p)
  {
    assert s[p..][1..] == s[p + 1..];
    assert s[..p + 1] == s[..p] + [s[p]];
  }

  lemma KeepDrop<T>(less: (T, T) -> bool, s: seq<T>, p: nat)
    requires p + 1 < |s| && !less(s[p], s[p + 1]) && !less(s[p + 1], s[p])
    ensures var t := s[..p + 1] + s[p + 2..];
            && Keeping(less, t, p) == Keeping(less, s, p)
            && Dropping(less, s, p) == [s[p + 1]] + Dropping(less, t, p)
  {
    var t := s[..p + 1] + s[p + 2..];
    assert t[p..] == [s[p..][0]] + s[p..][2..];
    assert t[..p] == s[..p];
  }

  lemma KeepEnd<T>(less: (T, T) -> bool, s: seq<T>, p: nat)
    requires p + 1 == |s|
    ensures Keeping(less, s, p) == s && Dropping(less, s, p) == []
  {
    assert s == s[..p] + s[p..];
  }

  ghost function Reversed<T>(s: seq<T>): (r: seq<T>)
    ensures |r| == |s| && forall i :: 0 <= i < |s| ==> r[i] == s[|s| - 1 - i]
  {
    if s == [] then [] else Reversed(s[1..]) + [s[0]]
  }

  /** The position of each element of a list. */
  ghost function Positions(s: seq<Elem>): (at: map<Elem, int>)
    requires Distinct(s)
    ensures forall p :: 0 <= p < |s| ==> s[p] in at && at[s[p]] == p
  {
    if s == [] then map[] else Positions(s[..|s| - 1])[s[|s| - 1] := |s| - 1]
  }

  /** The loop of list_reverse: swap the links of every element between the sentinels. */
  method SwapLinks(head: Elem, tail: Elem, ghost s: seq<Elem>, ghost inner: set<Elem>)
    requires Chain(s) && head == s[0] && tail == s[|s| - 1]
    requires head !in inner && tail !in inner && forall k :: 0 < k < |s| - 1 ==> s[k] in inner
    modifies inner
    ensures Ended(s) && head.next == s[1] && tail.prev == s[|s| - 2]
    ensures forall k :: 0 < k < |s| - 1 ==> s[k].prev == s[k + 1] && s[k].next == s[k - 1]
  {
    ghost var at, n := Positions(s), |s| - 1;
    assert forall k :: 0 < k < n ==> s[k].prev == s[k - 1] && s[k].next == s[k + 1];
    var e, i := head.next, 1;
    hide Chain, Linked, Distinct, Members, Positions;
    while e != tail
      invariant 1 <= i <= n && e == s[i]
      invariant forall k :: 0 < k < i ==> s[k].prev == s[k + 1] && s[k].next == s[k - 1]
      invariant forall k :: i <= k < n ==> s[k].prev == s[k - 1] && s[k].next == s[k + 1]
      decreases n - i
    {
      assert at[s[i]] == i;
      e.prev, e.next := e.next, e.prev;
      e := e.prev;
      i := i + 1;
    }
    assert at[s[i]] == i && at[s[n]] == n;
  }

  lemma InnerElements(h: Elem, e: seq<Elem>, t: Elem)
    requires Distinct([h] + e + [t])
    ensures var s := [h] + e + [t];
            && h !in Members(e) && t !in Members(e) && Members(e) <= Members(s)
            && forall k :: 0 < k < |s| - 1 ==> s[k] in Members(e)
  {
    var s := [h] + e + [t];
    forall k | 0 <= k < |e|
      ensures e[k] != h && e[k] != t
    {
      assert s[k + 1] == e[k] && s[0] == h && s[|e| + 1] == t;
    }
  }

  /** The end of list_reverse, once the links between the sentinels are swapped. */
  method SwapEnds(head: Elem, tail: Elem, ghost s: seq<Elem>)
    requires |s| > 2 && Distinct(s) && Ended(s) && head == s[0] && tail == s[|s| - 1]
    requires head.next == s[1] && tail.prev == s[|s| - 2]
    requires forall k :: 0 < k < |s| - 1 ==> s[k].prev == s[k + 1] && s[k].next == s[k - 1]
    modifies Members(s)
    ensures Swapped(s)
  {
    ghost var at, n := Positions(s), |s| - 1;
    assert at[s[0]] == 0 && at[s[1]] == 1 && at[s[n - 1]] == n - 1 && at[s[n]] == n;
    hide Distinct;
    head.next, tail.prev := tail.prev, head.next;
    var f, l := head.next, tail.prev;
    f.prev, l.next := l.next, f.prev;
    forall k | 0 < k < n
      ensures s[k].prev == (if k < n - 1 then s[k + 1] else head) && s[k].next == (if k > 1 then s[k - 1] else tail)
    {
      assert at[s[k]] == k;
    }
  }

  /** The links of a list that is linked backwards between its sentinels. */
  ghost predicate Swapped(s: seq<Elem>)
    requires |s| > 2
    reads s
  {
    var n := |s| - 1;
    && Ended(s) && s[0].next == s[n - 1] && s[n].prev == s[1]
    && forall k :: 0 < k < n ==>
      s[k].prev == s[if k < n - 1 then k + 1 else 0] && s[k].next == s[if k > 1 then k - 1 else n]
  }

  lemma ReversedChain(s: seq<Elem>, t: seq<Elem>)
    requires Distinct(s) && |s| > 2 && Swapped(s) && |t| == |s| && t[0] == s[0] && t[|s| - 1] == s[|s| - 1]
    requires forall k :: 0 < k < |s| - 1 ==> t[k] == s[|s| - 1 - k]
    ensures Chain(t) && Members(t) == Members(s)
  {
    var n := |s| - 1;
    forall k | 0 <= k < n
      ensures t[k].next == t[k + 1] && t[k + 1].prev == t[k]
    {
      assert 0 < k ==> t[k] == s[n - k];
      assert k + 1 < n ==> t[k + 1] == s[n - k - 1];
    }
    forall k | 0 < k < n
      ensures s[k] == t[n - k]
    {
    }
    forall e: Elem
      ensures e in Members(t) <==> e in Members(s)
    {
      if e in Members(s) {
        var k :| 0 <= k < |s| && s[k] == e;
        assert e == t[if 0 < k < n then n - k else k];
      }
    }
  }

  /** struct list */
  class List {
    const head: Elem
    const tail: Elem
    ghost var elems: seq<Elem>

    ghost function Spine(): (s: seq<Elem>)
      reads `elems
      ensures |s| == |elems| + 2
    {
      [head] + elems + [tail]
    }

    ghost predicate Valid()
      reads `elems, Members(Spine())
    {
      Chain(Spine())
    }

    /** llist_init */
    constructor ()
      ensures Valid() && elems == [] && fresh(head) && fresh(tail)
    {
      head := new Elem(null);
      tail := new Elem(null);
      elems := [];
      new;
      head.prev, head.next := null, tail;
      tail.prev, tail.next := head, null;
    }

    /** One step forward from position i, where position 0 is the head. */
    lemma NextAt(i: nat)
      requires Valid() && i <= |elems|
      ensures Spine()[i].next == Spine()[i + 1] && Spine()[i + 1].prev == Spine()[i]
    {
    }

    /** One step forward reaches the tail exactly from the last element, or from the head of an empty list. */
    lemma StepFrom(i: nat)
      requires Valid() && i <= |elems|
      ensures Spine()[i].next == Spine()[i + 1] && (Spine()[i + 1] == tail <==> i == |elems|)
    {
      assert Spine()[|elems| + 1] == tail;
    }

    lemma DistinctAt(i: nat, j: nat)
      requires Valid() && i < |elems| + 2 && j < |elems| + 2
      ensures Spine()[i] == Spine()[j] <==> i == j
    {
    }

    lemma SpineIs()
      ensures Spine() == [head] + elems + [tail]
    {
    }

    lemma ElemAt(i: nat)
      requires i < |elems|
      ensures Spine()[i + 1] == elems[i]
    {
    }

    lemma Compared(i: nat)
      requires Valid() && 0 < i < |elems|
      ensures Spine()[i + 1] == elems[i] && elems[i].prev == elems[i - 1]
    {
      ElemAt(i - 1);
      NextAt(i);
    }

    /** find_end_of_run, from element i to before element j */
    method FindEndOfRun(a0: Elem, b: Elem, less: (Elem, Elem) -> bool, ghost i: nat, ghost j: nat) returns (a: Elem)
      requires Valid() && i < j <= |elems|
      requires a0 == Spine()[i + 1] && b == Spine()[j + 1]
      ensures Valid() && a == Spine()[RunEnd(less, elems, i, j) + 1]
    {
      hide Chain, Spine, List.Valid, RunEnd;
      NextAt(i + 1);
      a := a0.next;
      ghost var e: nat := i + 1;
      DistinctAt(e + 1, j + 1);
      if e < j {
        Compared(e);
      }
      while a != b && !less(a, a.prev)
        invariant Valid() && i < e <= j
        invariant a == Spine()[e + 1] && (a == b <==> e == j)
        invariant e < j ==> a == elems[e] && a.prev == elems[e - 1]
        invariant forall t :: i < t < e ==> !less(elems[t], elems[t - 1])
        decreases j - e
      {
        NextAt(e + 1);
        a := a.next;
        e := e + 1;
        DistinctAt(e + 1, j + 1);
        if e < j {
          Compared(e);
        }
      }
      RunEndIs(less, elems, i, j, e);
    }

    /** list_splice of element q to just before element p, after stepping past it */
    method TakeSecond(a: Elem, b: Elem, ghost p: nat, ghost q: nat, ghost j: nat) returns (b2: Elem)
      requires Valid() && p < q < j <= |elems|
      requires a == Spine()[p + 1] && b == Spine()[q + 1]
      modifies this`elems, Members(Spine())
      ensures Valid() && elems == old(Moved(elems, p, q))
      ensures b2 == Spine()[q + 2] && a == Spine()[p + 2] && Spine()[j + 1] == old(Spine()[j + 1])
      ensures Members(Spine()) == old(Members(Spine()))
    {
      hide Chain, Moved, Members;
      NextAt(q + 1);
      b2 := b.next;
      ghost var e, h, t := elems, [head], [tail];
      ghost var d := e[p..q] + e[q + 1..] + t;
      SpineParts(head, e, tail, p, q);
      MovedSpine(head, e, tail, p, q, j);
      Splice(a, b2.prev, b2, h + e[..q], [e[q]], e[q + 1..] + t, h + e[..p], d);
      elems := Moved(e, p, q);
    }

    /** inplace_merge of elements i to m with elements m to j */
    method InplaceMerge(a0: Elem, a1b0: Elem, b1: Elem, less: (Elem, Elem) -> bool, ghost i: nat, ghost m: nat,
                        ghost j: nat)
      requires Valid() && i < m < j <= |elems|
      requires a0 == Spine()[i + 1] && a1b0 == Spine()[m + 1] && b1 == Spine()[j + 1]
      requires Sorted(less, elems[i..m]) && Sorted(less, elems[m..j])
      modifies this`elems, Members(Spine())
      ensures Valid() && elems == old(Merging(less, elems, i, m, j))
      ensures |elems| == old(|elems|) && b1 == Spine()[j + 1] && Members(Spine()) == old(Members(Spine()))
    {
      hide Chain, Merge, Moved, Merging, Spine, List.Valid, Members, Sorted;
      var a, b := a0, a1b0;
      ghost var s := elems;
      ghost var p, q := i, m;
      DistinctAt(p + 1, q + 1);
      DistinctAt(q + 1, j + 1);
      while a != b && b != b1
        invariant Valid() && p <= q <= j <= |elems| && |elems| == |s|
        invariant a == Spine()[p + 1] && b == Spine()[q + 1] && b1 == Spine()[j + 1]
        invariant (a == b <==> p == q) && (b == b1 <==> q == j)
        invariant Merging(less, elems, p, q, j) == Merging(less, s, i, m, j)
        invariant Members(Spine()) == old(Members(Spine()))
        decreases j - p, j - q
      {
        ElemAt(p);
        ElemAt(q);
        if !less(b, a) {
          NextAt(p + 1);
          a := a.next;
          TakenFirst(less, elems, p, q, j);
          p := p + 1;
        } else {
          TakenSecond(less, elems, p, q, j);
          b := TakeSecond(a, b, p, q, j);
          p, q := p + 1, q + 1;
        }
        DistinctAt(p + 1, q + 1);
        DistinctAt(q + 1, j + 1);
      }
      Merged(less, elems, p, q, j);
    }

    /** One pass of list_sort over the list. */
    method MergePass(less: (Elem, Elem) -> bool) returns (outputs: nat)
      requires Valid()
      modifies this`elems, Members(Spine())
      ensures Valid() && Members(Spine()) == old(Members(Spine()))
      ensures elems == old(Pass(less, elems))
      ensures outputs == (old(Runs(less, elems)) + 1) / 2
    {
      hide Chain, Merge, Pass, Runs, Merging, Spine, List.Valid, Members, Sorted, RunLength, Passing, RunEnd,
        OutputsLeft;
      outputs := 0;
      NextAt(0);
      SpineIs();
      var a0 := head.next;
      ghost var s, p := elems, 0;
      DistinctAt(1, |elems| + 1);
      PassBounds(less, elems);
      while a0 != tail
        invariant Valid() && 0 <= p <= |elems| && Members(Spine()) == old(Members(Spine()))
        invariant a0 == Spine()[p + 1] && (a0 == tail <==> p == |elems|)
        invariant Passing(less, elems, p) == Passing(less, s, 0)
        invariant outputs + OutputsLeft(less, elems, p) == OutputsLeft(less, s, 0)
        decreases |elems| - p
      {
        outputs := outputs + 1;
        SpineIs();
        var a1b0 := FindEndOfRun(a0, tail, less, p, |elems|);
        ghost var m := RunEnd(less, elems, p, |elems|);
        DistinctAt(m + 1, |elems| + 1);
        if a1b0 == tail {
          PassEnds(less, elems, p);
          PassBounds(less, elems);
          return;
        }
        var b1 := FindEndOfRun(a1b0, tail, less, m, |elems|);
        ghost var j := RunEnd(less, elems, m, |elems|);
        TwoRuns(less, elems, p, m, j);
        PassMore(less, elems, p, m, j);
        InplaceMerge(a0, a1b0, b1, less, p, m, j);
        a0, p := b1, j;
        SpineIs();
        DistinctAt(p + 1, |elems| + 1);
      }
      PassBounds(less, elems);
    }

    /** list_sort. The number of passes is 1 or at most the logarithm of the number of runs, rounded up. */
    method Sort(less: (Elem, Elem) -> bool) returns (ghost passes: nat)
      requires Valid() && WeakOrder(less, Members(elems))
      modifies this`elems, Members(Spine())
      ensures Valid() && Members(Spine()) == old(Members(Spine()))
      ensures Sorted(less, elems) && Stably(less, old(elems), elems)
      ensures passes == 1 || (passes > 1 && Pow2(passes - 1) < old(Runs(less, elems)))
    {
      hide Chain, Pass, Runs, Spine, List.Valid, Members, Sorted, Stably, WeakOrder, Pow2, Sorting;
      passes := 0;
      ghost var s := elems;
      ghost var bound: nat := Runs(less, elems);
      SortStart(less, s);
      while true
        invariant Valid() && Members(Spine()) == old(Members(Spine()))
        invariant Sorting(less, s, elems, passes, bound)
        decreases Runs(less, elems)
      {
        ghost var e := elems;
        var outputs := MergePass(less);
        SortStep(less, s, e, elems, passes, bound, outputs);
        if outputs <= 1 {
          passes := passes + 1;
          break;
        }
        passes, bound := passes + 1, outputs;
      }
    }

    /** list_insert, just before element i or before the tail */
    method Insert(before: Elem, e: Elem, ghost i: nat)
      requires Valid() && i <= |elems| && before == Spine()[i + 1] && e !in Members(Spine())
      modifies this`elems, Members(Spine()), e
      ensures Valid() && elems == old(elems[..i]) + [e] + old(elems[i..])
      ensures Members(Spine()) == old(Members(Spine())) + {e}
    {
      ghost var s, c, d := elems, [head] + elems[..i], elems[i..] + [tail];
      assert c + d == Spine();
      MembersWith(c, d, e);
      hide Chain, Members;
      Paste(before, e, e, c, [e], d);
      elems := s[..i] + [e] + s[i..];
      assert Spine() == c + [e] + d;
    }

    /** list_push_back */
    method PushBack(e: Elem)
      requires Valid() && e !in Members(Spine())
      modifies this`elems, Members(Spine()), e
      ensures Valid() && elems == old(elems) + [e]
      ensures Members(Spine()) == old(Members(Spine())) + {e}
    {
      SpineIs();
      Insert(tail, e, |elems|);
    }

    /** list_remove of element i */
    method Remove(e: Elem, ghost i: nat) returns (next: Elem)
      requires Valid() && i < |elems| && e == elems[i]
      modifies this`elems, Members(Spine())
      ensures Valid() && elems == old(elems[..i] + elems[i + 1..])
      ensures next == Spine()[i + 1]
      ensures Members(Spine()) == old(Members(Spine())) - {e} && e in old(Members(Spine()))
    {
      ghost var s, c, d := elems, [head] + elems[..i], elems[i + 1..] + [tail];
      assert elems == s[..i] + [s[i]] + s[i + 1..];
      assert c + [e] + d == Spine();
      NextAt(i + 1);
      MembersWith(c, d, e);
      hide Chain, Members;
      next := e.next;
      Cut(e, e, c, [e], d);
      elems := s[..i] + s[i + 1..];
      assert Spine() == c + d;
    }

    /** list_insert_ordered: after every element that e does not precede. */
    method InsertOrdered(e: Elem, less: (Elem, Elem) -> bool) returns (ghost i: nat)
      requires Valid() && e !in Members(Spine())
      requires WeakOrder(less, Members(elems) + {e}) && Sorted(less, elems)
      modifies this`elems, Members(Spine()), e
      ensures Valid() && Members(Spine()) == old(Members(Spine())) + {e}
      ensures i <= |old(elems)| && elems == old(elems[..i] + [e] + elems[i..])
      ensures Sorted(less, elems) && Stably(less, old(elems) + [e], elems)
    {
      hide Chain, Spine, List.Valid, Members, Sorted, Stably, WeakOrder;
      SpineIs();
      StepFrom(0);
      var x := head.next;
      i := 0;
      while x != tail
        invariant Valid() && i <= |elems|
        invariant x == Spine()[i + 1] && (x == tail <==> i == |elems|)
        invariant forall k :: 0 <= k < i ==> !less(e, elems[k])
        modifies {}
        decreases |elems| - i
      {
        ElemAt(i);
        if less(e, x) {
          break;
        }
        StepFrom(i + 1);
        x := x.next;
        i := i + 1;
      }
      OrderedInsert(less, elems, e, i);
      Insert(x, e, i);
    }

    /** The step of list_unique that takes element i out of this list and puts it at the end of the other one. */
    method Discard(duplicates: List?, e: Elem, ghost i: nat)
      requires Valid() && i < |elems| && e == elems[i]
      requires duplicates != null ==>
        duplicates != this && duplicates.Valid() && Members(Spine()) !! Members(duplicates.Spine())
      modifies this`elems, Members(Spine())
      modifies if duplicates == null then {} else {duplicates} + Members(duplicates.Spine())
      ensures Valid() && elems == old(elems[..i] + elems[i + 1..])
      ensures Members(Spine()) == old(Members(Spine())) - {e} && e in old(Members(Spine()))
      ensures duplicates != null ==>
        && duplicates.Valid() && duplicates.elems == old(duplicates.elems) + [e]
        && Members(duplicates.Spine()) == old(Members(duplicates.Spine())) + {e}
    {
      hide Chain, List.Valid;
      var after := Remove(e, i);
      if duplicates != null {
        duplicates.PushBack(e);
      }
    }

    /** list_unique. The removed elements are appended to the other list, if there is one. */
    method Unique(duplicates: List?, less: (Elem, Elem) -> bool)
      requires Valid()
      requires duplicates != null ==>
        duplicates != this && duplicates.Valid() && Members(Spine()) !! Members(duplicates.Spine())
      modifies this`elems, Members(Spine())
      modifies if duplicates == null then {} else {duplicates} + Members(duplicates.Spine())
      ensures Valid() && elems == old(Kept(less, elems))
      ensures duplicates != null ==>
        duplicates.Valid() && duplicates.elems == old(duplicates.elems + Dropped(less, elems))
    {
      hide Chain, Spine, List.Valid, Members, Kept, Dropped, Keeping, Dropping;
      ghost var s, p := elems, 0;
      ghost var r := if duplicates == null then [] else duplicates.elems;
      SpineIs();
      StepFrom(0);
      KeepStart(less, elems);
      if head.next == tail {
        return;
      }
      var e := head.next;
      StepFrom(1);
      var next := e.next;
      while next != tail
        invariant Valid() && 0 <= p < |elems| && e == Spine()[p + 1]
        invariant next == Spine()[p + 2] && (next == tail <==> p + 1 == |elems|)
        invariant Keeping(less, elems, p) == Keeping(less, s, 0)
        invariant Members(Spine()) <= old(Members(Spine()))
        invariant duplicates != null ==>
          && duplicates.Valid() && Members(Spine()) !! Members(duplicates.Spine())
          && duplicates.elems + Dropping(less, elems, p) == r + Dropping(less, s, 0)
          && Members(duplicates.Spine()) <= old(Members(Spine()) + Members(duplicates.Spine()))
        decreases |elems| - p
      {
        ElemAt(p);
        ElemAt(p + 1);
        if !less(e, next) && !less(next, e) {
          KeepDrop(less, elems, p);
          Discard(duplicates, next, p + 1);
        } else {
          KeepNext(less, elems, p);
          e := next;
          p := p + 1;
        }
        ElemAt(p);
        StepFrom(p + 1);
        next := e.next;
      }
      KeepEnd(less, elems, p);
    }

    lemma ReverseStart()
      requires Valid()
      ensures var s, t := Spine(), [head] + Reversed(elems) + [tail];
              && s == [head] + elems + [tail] && Chain(s) && Distinct(s) && |t| == |s| && head.next == s[1]
              && head !in Members(elems) && tail !in Members(elems) && Members(elems) <= Members(s)
              && (forall k :: 0 < k < |s| - 1 ==> s[k] in Members(elems) && t[k] == s[|s| - 1 - k])
              && (head.next == tail <==> elems == [])
    {
      StepFrom(0);
      InnerElements(head, elems, tail);
      hide Reversed;
    }

    /** list_reverse */
    method Reverse()
      requires Valid()
      modifies this`elems, Members(Spine())
      ensures Valid() && elems == old(Reversed(elems)) && Members(Spine()) == old(Members(Spine()))
    {
      hide Chain, Linked, Distinct, Spine, Members, Reversed, Swapped, Ended;
      ghost var s, r := Spine(), Reversed(elems);
      ReverseStart();
      if head.next == tail {
        assert r == elems;
      } else {
        SwapLinks(head, tail, s, Members(elems));
        SwapEnds(head, tail, s);
        ReversedChain(s, [head] + r + [tail]);
      }
      elems := r;
      SpineIs();
    }
  }
}
