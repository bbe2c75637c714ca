/** What least-recently-used means: the order of most recent uses, and the pages that a store of limited size keeps. */
module Recency {
  import opened Sequences

  function Without<T(==)>(s: seq<T>, x: T): seq<T> {
    if s == [] then [] else if s[0] == x then s[1..] else [s[0]] + Without(s[1..], x)
  }

  function Take<T>(s: seq<T>, n: nat): seq<T> {
    if n < |s| then s[..n] else s
  }

  /** The pages used so far, the most recently used first. */
  function Recent<T(==)>(uses: seq<T>): seq<T> {
    if uses == [] then [] else
      var x := uses[|uses| - 1];
      [x] + Without(Recent(uses[..|uses| - 1]), x)
  }

  /** The number of uses up to the last use of x. */
  function LastUse<T(==)>(uses: seq<T>, x: T): nat {
    if uses == [] then 0 else if uses[|uses| - 1] == x then |uses| else LastUse(uses[..|uses| - 1], x)
  }

  /** Using x when a store of capacity cap holds these pages: move it to the front, or put it there in place of the
      last page when the store is full. */
  function Touch<T(==)>(kept: seq<T>, cap: nat, x: T): seq<T> {
    if x in kept then [x] + Without(kept, x)
    else if |kept| < cap || kept == [] then [x] + kept
    else [x] + kept[..|kept| - 1]
  }

  lemma {:induction false} WithoutAt<T>(s: seq<T>, x: T, i: nat)
    requires Distinct(s) && i < |s| && s[i] == x
    ensures Without(s, x) == s[..i] + s[i + 1..]
  {
    if i > 0 {
      assert s[0] != x && Distinct(s[1..]);
      WithoutAt(s[1..], x, i - 1);
      assert s[1..][..i - 1] == s[1..i] && s[1..][i..] == s[i + 1..];
    }
  }

  lemma {:induction false} WithoutAbsent<T>(s: seq<T>, x: T)
    requires x !in s
    ensures Without(s, x) == s
  {
    if s != [] {
      WithoutAbsent(s[1..], x);
    }
  }

  lemma PutFirst<T>(s: seq<T>, x: T)
    requires Distinct(s) && x !in s
    ensures Distinct([x] + s)
  {
    var t := [x] + s;
    forall i, j | 0 <= i < j < |t|
      ensures t[i] != t[j]
    {
      assert t[j] == s[j - 1];
    }
  }

  lemma {:induction false} WithoutElements<T>(s: seq<T>, x: T)
    requires Distinct(s)
    ensures Distinct(Without(s, x))
    ensures forall y :: y in Without(s, x) <==> y in s && y != x
    ensures forall i :: 0 <= i < |Without(s, x)| ==> Without(s, x)[i] in s && Without(s, x)[i] != x
  {
    if s != [] {
      var t := s[1..];
      assert s == [s[0]] + t;
      assert Distinct(t) && s[0] !in t;
      if s[0] != x {
        WithoutElements(t, x);
        PutFirst(Without(t, x), s[0]);
      }
    }
  }

  /** Recent has each page that was used, once. */
  lemma {:induction false} RecentElements<T>(uses: seq<T>)
    ensures Distinct(Recent(uses))
    ensures forall y :: y in Recent(uses) <==> y in uses
  {
    if uses != [] {
      var n := |uses| - 1;
      var u, x := uses[..n], uses[n];
      RecentElements(u);
      WithoutElements(Recent(u), x);
      PutFirst(Without(Recent(u), x), x);
      assert uses == u + [x];
    }
  }

  ghost predicate Falls<T>(uses: seq<T>, s: seq<T>) {
    forall i, j :: 0 <= i < j < |s| ==> LastUse(uses, s[i]) > LastUse(uses, s[j])
  }

  /** Recent is in the order of last uses, the latest first. */
  lemma {:induction false} RecentOrder<T>(uses: seq<T>)
    ensures Falls(uses, Recent(uses))
  {
    if uses != [] {
      var n := |uses| - 1;
      var u, x := uses[..n], uses[n];
      var r, w := Recent(u), Without(Recent(u), x);
      RecentOrder(u);
      RecentElements(u);
      WithoutElements(r, x);
      WithoutFalls(u, r, x);
      forall i | 0 <= i < |w|
        ensures LastUse(uses, w[i]) == LastUse(u, w[i]) <= n
      {
        assert w[i] in w;
        LastUseBound(u, w[i]);
      }
    }
  }

  lemma WithoutFalls<T>(uses: seq<T>, s: seq<T>, x: T)
    requires Distinct(s) && Falls(uses, s)
    ensures Falls(uses, Without(s, x))
  {
    hide LastUse, Without, Distinct;
    if x in s {
      var i :| 0 <= i < |s| && s[i] == x;
      WithoutAt(s, x, i);
    } else {
      WithoutAbsent(s, x);
    }
  }

  lemma {:induction false} LastUseBound<T>(uses: seq<T>, x: T)
    ensures LastUse(uses, x) <= |uses|
  {
    if uses != [] {
      LastUseBound(uses[..|uses| - 1], x);
    }
  }

  /** A store that moves each page it uses to the front, and gives up its last page when it is full, holds the most
      recently used pages: as many as it has room for. */
  lemma TouchKeepsRecent<T>(uses: seq<T>, cap: nat, x: T)
    requires cap > 0
    ensures Touch(Take(Recent(uses), cap), cap, x) == Take(Recent(uses + [x]), cap)
  {
    var r := Recent(uses);
    RecentElements(uses);
    assert (uses + [x])[..|uses|] == uses;
    if x in r {
      var i :| 0 <= i < |r| && r[i] == x;
      WithoutAt(r, x, i);
      TakeMoved(r, cap, i);
    } else {
      WithoutAbsent(r, x);
    }
  }

  lemma TouchAbsent<T>(kept: seq<T>, cap: nat, x: T)
    requires x !in kept && 0 < cap && |kept| <= cap
    ensures Touch(kept, cap, x) == [x] + (if |kept| == cap then kept[..cap - 1] else kept)
  {
  }

  lemma TouchLast<T>(kept: seq<T>, cap: nat, x: T)
    requires Distinct(kept) && kept != [] && x == kept[|kept| - 1]
    ensures Touch(kept, cap, x) == [x] + kept[..|kept| - 1]
  {
    WithoutAt(kept, x, |kept| - 1);
    assert x in kept;
  }

  lemma TakenOnce<T>(uses: seq<T>, cap: nat)
    ensures Distinct(Take(Recent(uses), cap))
  {
    RecentElements(uses);
  }

  lemma TwiceListed<T>(x: T, s: seq<T>)
    requires x in s
    ensures !Distinct([x] + s)
  {
    var i :| 0 <= i < |s| && s[i] == x;
    assert ([x] + s)[0] == ([x] + s)[i + 1];
  }

  /** Putting a page first that the store is said to have lost: right exactly if it is not listed any more. `rest` is
      what is left of the list after its last page was given up, if the store was full. */
  lemma FaultOrder<T>(uses: seq<T>, cap: nat, rest: seq<T>, x: T)
    requires cap > 0
    requires var kept := Take(Recent(uses), cap); rest == if |kept| == cap then kept[..cap - 1] else kept
    ensures [x] + rest == Take(Recent(uses + [x]), cap) <==> x !in rest
    ensures x !in rest ==> [x] + rest == Touch(Take(Recent(uses), cap), cap, x)
    ensures x in rest <==> x in Take(Recent(uses), cap)
                           && !(|Take(Recent(uses), cap)| == cap && x == Take(Recent(uses), cap)[cap - 1])
  {
    hide Recent, Touch, Without, Distinct;
    var kept := Take(Recent(uses), cap);
    TakenOnce(uses, cap);
    TakenOnce(uses + [x], cap);
    TouchKeepsRecent(uses, cap, x);
    if |kept| == cap {
      LastOnce(kept);
      assert kept == rest + [kept[cap - 1]];
    }
    if x in rest {
      TwiceListed(x, rest);
    } else if x in kept {
      TouchLast(kept, cap, x);
    } else {
      TouchAbsent(kept, cap, x);
    }
  }

  lemma LastOnce<T>(s: seq<T>)
    requires Distinct(s) && s != []
    ensures s[|s| - 1] !in s[..|s| - 1]
  {
  }

  lemma TouchPresent<T>(kept: seq<T>, cap: nat, x: T)
    requires x in kept
    ensures Touch(kept, cap, x) == [x] + Without(kept, x)
  {
  }

  lemma TakeMoved<T>(r: seq<T>, cap: nat, i: nat)
    requires Distinct(r) && cap > 0 && i < |r|
    ensures Touch(Take(r, cap), cap, r[i]) == Take([r[i]] + (r[..i] + r[i + 1..]), cap)
  {
    var c := Take(r, cap);
    if i < |c| {
      assert c[i] == r[i];
      WithoutAt(c, r[i], i);
    } else {
      assert r[i] !in c;
    }
  }

  /** The page that a full store gives up is the one whose last use is longest ago. */
  lemma LastIsLeastRecent<T>(uses: seq<T>, cap: nat, i: nat)
    requires i < |Take(Recent(uses), cap)| - 1
    ensures var kept := Take(Recent(uses), cap);
            LastUse(uses, kept[|kept| - 1]) < LastUse(uses, kept[i])
  {
    RecentOrder(uses);
  }

  /** Every page that was used and is not kept was last used before every page that is kept. */
  lemma KeptAreMostRecent<T>(uses: seq<T>, cap: nat, i: nat, x: T)
    requires i < |Take(Recent(uses), cap)| && x in uses && x !in Take(Recent(uses), cap)
    ensures LastUse(uses, x) < LastUse(uses, Take(Recent(uses), cap)[i])
  {
    RecentElements(uses);
    RecentOrder(uses);
    var r := Recent(uses);
    var j :| 0 <= j < |r| && r[j] == x;
    forall k | 0 <= k < |Take(r, cap)|
      ensures r[k] != x
    {
      assert Take(r, cap)[k] == r[k];
    }
  }
}
