/** Sorted lists of reals: binary search, insertion, sorting, and what they count. */
module SortedLists {
  import opened Counting

  function AtMost(v: real): real -> bool { (x: real) => x <= v }

  function Under(v: real): real -> bool { (x: real) => x < v }

  function Equals(v: real): real -> bool { (x: real) => x == v }

  /** `searchsorted(sorted(xs), v, side="right")`. */
  ghost function CountLe(xs: seq<real>, v: real): nat { Count(xs, AtMost(v)) }

  /** `searchsorted(sorted(xs), v, side="left")`. */
  ghost function CountLt(xs: seq<real>, v: real): nat { Count(xs, Under(v)) }

  ghost function Copies(xs: seq<real>, v: real): nat { Count(xs, Equals(v)) }

  ghost predicate Ascending(s: seq<real>) {
    forall i, j :: 0 <= i < j < |s| ==> s[i] <= s[j]
  }

  /** Leftmost insertion point. */
  function BisectLeft(s: seq<real>, v: real): (n: nat)
    ensures n <= |s|
  {
    if s == [] || s[0] >= v then 0 else 1 + BisectLeft(s[1..], v)
  }

  /** Rightmost insertion point. */
  function BisectRight(s: seq<real>, v: real): (n: nat)
    ensures n <= |s|
  {
    if s == [] || s[0] > v then 0 else 1 + BisectRight(s[1..], v)
  }

  lemma {:induction false} BisectLeftSplits(s: seq<real>, v: real)
    requires Ascending(s)
    ensures forall i :: 0 <= i < |s| ==> (s[i] < v <==> i < BisectLeft(s, v))
  {
    if s != [] && s[0] < v {
      BisectLeftSplits(s[1..], v);
      forall i | 0 <= i < |s| ensures s[i] < v <==> i < BisectLeft(s, v) {
        if i > 0 { assert s[i] == s[1..][i - 1]; }
      }
    }
  }

  lemma {:induction false} BisectRightSplits(s: seq<real>, v: real)
    requires Ascending(s)
    ensures forall i :: 0 <= i < |s| ==> (s[i] <= v <==> i < BisectRight(s, v))
  {
    if s != [] && s[0] <= v {
      BisectRightSplits(s[1..], v);
      forall i | 0 <= i < |s| ensures s[i] <= v <==> i < BisectRight(s, v) {
        if i > 0 { assert s[i] == s[1..][i - 1]; }
      }
    }
  }

  lemma {:induction false} BisectOrder(s: seq<real>, u: real, v: real)
    requires u <= v
    ensures BisectLeft(s, u) <= BisectLeft(s, v) <= BisectRight(s, v)
  {
    if s != [] { BisectOrder(s[1..], u, v); }
  }

  /** On a sorted copy of a window, the binary search counts the window's elements at most `v`. */
  lemma BisectRightCounts(s: seq<real>, xs: seq<real>, v: real)
    requires Ascending(s) && multiset(s) == multiset(xs)
    ensures BisectRight(s, v) == CountLe(xs, v)
  {
    BisectRightSplits(s, v);
    CountPermuted(s, xs, AtMost(v));
    var n := BisectRight(s, v);
    assert s == s[..n] + s[n..];
    CountConcat(s[..n], s[n..], AtMost(v));
    CountAll(s[..n], AtMost(v));
    CountNone(s[n..], AtMost(v));
  }

  /** The left search counts the elements below `v`. */
  lemma BisectLeftCounts(s: seq<real>, xs: seq<real>, v: real)
    requires Ascending(s) && multiset(s) == multiset(xs)
    ensures BisectLeft(s, v) == CountLt(xs, v)
  {
    BisectLeftSplits(s, v);
    CountPermuted(s, xs, Under(v));
    var n := BisectLeft(s, v);
    assert s == s[..n] + s[n..];
    CountConcat(s[..n], s[n..], Under(v));
    CountAll(s[..n], Under(v));
    CountNone(s[n..], Under(v));
  }

  function Insort(s: seq<real>, v: real): seq<real> {
    var n := BisectRight(s, v);
    s[..n] + [v] + s[n..]
  }

  lemma InsortMeaning(s: seq<real>, v: real)
    requires Ascending(s)
    ensures Ascending(Insort(s, v)) && multiset(Insort(s, v)) == multiset(s) + multiset{v}
  {
    BisectRightSplits(s, v);
    var n := BisectRight(s, v);
    assert s == s[..n] + s[n..];
  }

  /** A sorted copy. */
  function SortedCopy(xs: seq<real>): (s: seq<real>)
    ensures Ascending(s) && multiset(s) == multiset(xs)
  {
    if xs == [] then [] else
      var rest := SortedCopy(xs[1..]);
      InsortMeaning(rest, xs[0]);
      assert xs == [xs[0]] + xs[1..];
      Insort(rest, xs[0])
  }
}
