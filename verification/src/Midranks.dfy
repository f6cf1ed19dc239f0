/** Ranks with ties averaged, computed in place: ranks by a stable argsort, summed and averaged over equal scores. */
module Midranks {
  import opened SortedLists

  function Indices(n: nat): (r: seq<nat>)
    ensures |r| == n
    ensures forall i :: 0 <= i < n ==> r[i] == i
  {
    if n == 0 then [] else Indices(n - 1) + [n - 1]
  }

  /** The sum of `f` over a list of positions. */
  ghost function Total(at: seq<nat>, f: nat -> real): real {
    if at == [] then 0.0 else Total(at[..|at| - 1], f) + f(at[|at| - 1])
  }

  lemma {:induction false} TotalConcat(a: seq<nat>, b: seq<nat>, f: nat -> real)
    ensures Total(a + b, f) == Total(a, f) + Total(b, f)
  {
    if b == [] {
      assert a + b == a;
    } else {
      TotalConcat(a, b[..|b| - 1], f);
      assert (a + b)[..|a + b| - 1] == a + b[..|b| - 1];
    }
  }

  /** Taking one occurrence of the last position of `a` out of a rearrangement of `a`. */
  lemma Without(a: seq<nat>, b: seq<nat>, i: nat)
    requires a != [] && multiset(a) == multiset(b) && i < |b| && b[i] == a[|a| - 1]
    ensures multiset(a[..|a| - 1]) == multiset(b[..i] + b[i + 1..])
  {
    var n, x := |a| - 1, a[|a| - 1];
    assert a == a[..n] + [x];
    assert b == b[..i] + [x] + b[i + 1..];
    assert multiset(b) == multiset(b[..i]) + multiset([x]) + multiset(b[i + 1..]) by {
      assert multiset(b[..i] + [x] + b[i + 1..]) == multiset(b);
    }
    assert multiset(a) == multiset(a[..n]) + multiset([x]) by {
      assert multiset(a[..n] + [x]) == multiset(a);
    }
    assert multiset(b[..i] + b[i + 1..]) == multiset(b[..i]) + multiset(b[i + 1..]);
    assert multiset(a[..n]) == multiset(a) - multiset([x]);
  }

  lemma {:induction false} TotalPermuted(a: seq<nat>, b: seq<nat>, f: nat -> real)
    requires multiset(a) == multiset(b)
    ensures Total(a, f) == Total(b, f)
  {
    if a == [] {
      assert |b| == |multiset(b)| == |multiset(a)| == 0;
    } else {
      var x := a[|a| - 1];
      assert x in multiset(b);
      var i :| 0 <= i < |b| && b[i] == x;
      Without(a, b, i);
      TotalPermuted(a[..|a| - 1], b[..i] + b[i + 1..], f);
      TotalConcat(b[..i], b[i + 1..], f);
      assert b == b[..i] + ([x] + b[i + 1..]);
      TotalConcat(b[..i], [x] + b[i + 1..], f);
      TotalConcat([x], b[i + 1..], f);
      assert Total([x], f) == Total([], f) + f(x);
    }
  }

  function Values(s: seq<real>, at: seq<nat>): (r: seq<real>)
    requires forall i :: 0 <= i < |at| ==> at[i] < |s|
    ensures |r| == |at|
  {
    seq(|at|, i requires 0 <= i < |at| => s[at[i]])
  }

  /** The stable argsort of the first n scores. */
  function ArgSort(s: seq<real>, n: nat): (r: seq<nat>)
    requires n <= |s|
    ensures |r| == n
    ensures forall i :: 0 <= i < n ==> r[i] < n
  {
    if n == 0 then []
    else
      var r := ArgSort(s, n - 1);
      var p := BisectRight(Values(s, r), s[n - 1]);
      r[..p] + [n - 1] + r[p..]
  }

  ghost predicate NoRepeats(at: seq<nat>) {
    forall i, j :: 0 <= i < j < |at| ==> at[i] != at[j]
  }

  lemma ValuesStep(s: seq<real>, n: nat)
    requires 0 < n <= |s|
    ensures Values(s, ArgSort(s, n)) == Insort(Values(s, ArgSort(s, n - 1)), s[n - 1])
  {
    var r := ArgSort(s, n - 1);
    var p := BisectRight(Values(s, r), s[n - 1]);
    assert Values(s, ArgSort(s, n)) == Values(s, r)[..p] + [s[n - 1]] + Values(s, r)[p..];
  }

  lemma OneMoreSorted(s: seq<real>, n: nat, sorted: seq<real>)
    requires 0 < n <= |s| && Ascending(sorted) && multiset(sorted) == multiset(s[..n - 1])
    ensures Ascending(Insort(sorted, s[n - 1])) && multiset(Insort(sorted, s[n - 1])) == multiset(s[..n])
  {
    InsortMeaning(sorted, s[n - 1]);
    assert s[..n] == s[..n - 1] + [s[n - 1]];
  }

  /** The argsort lists the scores in ascending order. */
  lemma {:induction false} ArgSortSorts(s: seq<real>, n: nat)
    requires n <= |s|
    ensures Ascending(Values(s, ArgSort(s, n))) && multiset(Values(s, ArgSort(s, n))) == multiset(s[..n])
  {
    if n > 0 {
      ArgSortSorts(s, n - 1);
      ValuesStep(s, n);
      OneMoreSorted(s, n, Values(s, ArgSort(s, n - 1)));
    }
  }

  lemma Inserted(r: seq<nat>, p: nat, x: nat)
    requires p <= |r|
    ensures multiset(r[..p] + [x] + r[p..]) == multiset(r + [x])
  {
    assert r == r[..p] + r[p..];
  }

  /** The argsort is a permutation of the positions. */
  lemma {:induction false} ArgSortPermutes(s: seq<real>, n: nat)
    requires n <= |s|
    ensures multiset(ArgSort(s, n)) == multiset(Indices(n))
  {
    if n > 0 {
      ArgSortPermutes(s, n - 1);
      var r := ArgSort(s, n - 1);
      var p := BisectRight(Values(s, r), s[n - 1]);
      Inserted(r, p, n - 1);
      OneMore(r, Indices(n - 1), n - 1);
    }
  }

  lemma OneMore(a: seq<nat>, b: seq<nat>, x: nat)
    requires multiset(a) == multiset(b)
    ensures multiset(a + [x]) == multiset(b + [x])
  {
  }

  lemma {:induction false} ArgSortDistinct(s: seq<real>, n: nat)
    requires n <= |s|
    ensures NoRepeats(ArgSort(s, n))
  {
    if n > 0 {
      ArgSortDistinct(s, n - 1);
    }
  }

  /** The i-th score in order has rank i + 1. */
  ghost predicate Ranked(s: seq<real>, ranks: seq<real>) {
    |ranks| == |s| && forall i :: 0 <= i < |s| ==> ranks[ArgSort(s, |s|)[i]] == (i + 1) as real
  }

  /** The rank of a position if it holds the score `v`. */
  function RankIf(s: seq<real>, ranks: seq<real>, v: real): nat -> real {
    (k: nat) => if k < |s| && k < |ranks| && s[k] == v then ranks[k] else 0.0
  }

  function Triangle(n: nat): nat {
    if n == 0 then 0 else Triangle(n - 1) + n
  }

  lemma {:induction false} TriangleMeaning(n: nat)
    ensures 2 * Triangle(n) == n * (n + 1)
  {
    if n > 0 { TriangleMeaning(n - 1); }
  }

  ghost predicate RanksBetween(order: seq<nat>, f: nat -> real, lt: nat, le: nat) {
    forall i :: 0 <= i < |order| ==> f(order[i]) == if lt <= i < le then (i + 1) as real else 0.0
  }

  /** A run of consecutive ranks, and nothing else, adds up to a difference of triangle numbers. */
  lemma {:induction false} ConsecutiveRanks(order: seq<nat>, f: nat -> real, lt: nat, le: nat, m: nat)
    requires lt <= le && m <= |order| && RanksBetween(order, f, lt, le)
    ensures Total(order[..m], f) == (if m <= lt then 0 else Triangle(if m <= le then m else le) - Triangle(lt)) as real
  {
    if m > 0 {
      ConsecutiveRanks(order, f, lt, le, m - 1);
      assert order[..m][..m - 1] == order[..m - 1];
    }
  }

  lemma RankTotal(order: seq<nat>, at: seq<nat>, f: nat -> real, lt: nat, le: nat)
    requires multiset(at) == multiset(order) && lt <= le <= |order| && RanksBetween(order, f, lt, le)
    ensures Total(at, f) == (Triangle(le) - Triangle(lt)) as real
  {
    ConsecutiveRanks(order, f, lt, le, |order|);
    assert order[..|order|] == order;
    TotalPermuted(at, order, f);
  }

  /** In order, the copies of `v` are the positions from CountLt to CountLe. */
  lemma CopiesInOrder(s: seq<real>, v: real)
    ensures CountLt(s, v) <= CountLe(s, v) <= |s|
    ensures forall i :: 0 <= i < |s| ==> (s[ArgSort(s, |s|)[i]] == v <==> CountLt(s, v) <= i < CountLe(s, v))
  {
    var order := ArgSort(s, |s|);
    var t := Values(s, order);
    ArgSortSorts(s, |s|);
    assert s[..|s|] == s;
    BisectLeftCounts(t, s, v);
    BisectRightCounts(t, s, v);
    BisectLeftSplits(t, v);
    BisectRightSplits(t, v);
    BisectOrder(t, v, v);
    assert forall i :: 0 <= i < |s| ==> t[i] == s[order[i]];
  }

  lemma RanksInOrder(s: seq<real>, ranks: seq<real>, v: real)
    requires Ranked(s, ranks)
    ensures RanksBetween(ArgSort(s, |s|), RankIf(s, ranks, v), CountLt(s, v), CountLe(s, v))
  {
    CopiesInOrder(s, v);
    var order, f := ArgSort(s, |s|), RankIf(s, ranks, v);
    forall i | 0 <= i < |order|
      ensures f(order[i]) == if CountLt(s, v) <= i < CountLe(s, v) then (i + 1) as real else 0.0
    {
      assert order[i] < |s|;
    }
  }

  /** The ranks of the copies of `v` run from CountLt + 1 to CountLe. */
  lemma RankSumOfCopies(s: seq<real>, ranks: seq<real>, v: real)
    requires Ranked(s, ranks)
    ensures CountLt(s, v) <= CountLe(s, v) <= |s|
    ensures Total(Indices(|s|), RankIf(s, ranks, v)) == (Triangle(CountLe(s, v)) - Triangle(CountLt(s, v))) as real
  {
    CopiesInOrder(s, v);
    RanksInOrder(s, ranks, v);
    ArgSortPermutes(s, |s|);
    RankTotal(ArgSort(s, |s|), Indices(|s|), RankIf(s, ranks, v), CountLt(s, v), CountLe(s, v));
  }
}
