/** The area under the ROC curve as a count of pairs: won, tied (half) or lost. */
module PairCounting {
  import opened Counting
  import opened SortedLists

  /** In halves: a positive that scores above a negative wins, an equal one ties. */
  function Halves(p: real, q: real): nat {
    if q < p then 2 else if q == p then 1 else 0
  }

  function Row(p: real, neg: seq<real>): nat {
    if neg == [] then 0 else Row(p, neg[..|neg| - 1]) + Halves(p, neg[|neg| - 1])
  }

  /** Over all pairs, in halves. */
  function Pairs(pos: seq<real>, neg: seq<real>): nat {
    if pos == [] then 0 else Pairs(pos[..|pos| - 1], neg) + Row(pos[|pos| - 1], neg)
  }

  lemma NonZero(a: int, b: int)
    requires a != 0 && b != 0
    ensures a * b != 0
  {
  }

  /** A share of all pairs of `a` and `b` elements. */
  function PerPair(x: real, a: int, b: int): real
    requires a != 0 && b != 0
  {
    NonZero(a, b);
    x / (a * b) as real
  }

  /** The area under the curve: pairs won plus half the pairs tied, over all pairs. */
  function Auc(pos: seq<real>, neg: seq<real>): real
    requires pos != [] && neg != []
  {
    PerPair(Pairs(pos, neg) as real / 2.0, |pos|, |neg|)
  }

  /** A row is read off the counts below and up to the score. */
  lemma {:induction false} RowCounts(p: real, neg: seq<real>)
    ensures Row(p, neg) == CountLt(neg, p) + CountLe(neg, p)
  {
    if neg != [] { RowCounts(p, neg[..|neg| - 1]); }
  }

  lemma {:induction false} RowColumn(x: real, xs: seq<real>, ys: seq<real>)
    ensures Pairs(ys, xs + [x]) + Row(x, ys) == Pairs(ys, xs) + 2 * |ys|
  {
    if ys != [] {
      RowColumn(x, xs, ys[..|ys| - 1]);
      assert (xs + [x])[..|xs|] == xs;
    }
  }

  /** What one side does not win the other side does. */
  lemma {:induction false} PairsBothWays(xs: seq<real>, ys: seq<real>)
    ensures Pairs(xs, ys) + Pairs(ys, xs) == 2 * (|xs| * |ys|)
  {
    if xs == [] {
      NoPairs(ys);
    } else {
      var front, x := xs[..|xs| - 1], xs[|xs| - 1];
      PairsBothWays(front, ys);
      RowColumn(x, front, ys);
      assert xs == front + [x];
      assert |xs| * |ys| == |front| * |ys| + |ys|;
    }
  }

  lemma {:induction false} NoPairs(ys: seq<real>)
    ensures Pairs(ys, []) == 0
  {
    if ys != [] { NoPairs(ys[..|ys| - 1]); }
  }

  lemma QuotientSum(x: real, y: real, d: real)
    requires d > 0.0
    ensures x / d + y / d == (x + y) / d
  {
  }

  lemma Share(a: int, n: int)
    requires 0 <= a <= 2 * n && n > 0
    ensures 0.0 <= a as real / 2.0 / n as real <= 1.0
    ensures (2 * n - a) as real / 2.0 / n as real == 1.0 - a as real / 2.0 / n as real
  {
    var x, y, d := a as real / 2.0, (2 * n - a) as real / 2.0, n as real;
    assert x + y == d;
    QuotientSum(x, y, d);
    assert d / d == 1.0;
  }

  /** The area lies in [0, 1], and exchanging the classes complements it. */
  lemma AucComplement(pos: seq<real>, neg: seq<real>)
    requires pos != [] && neg != []
    ensures 0.0 <= Auc(pos, neg) <= 1.0 && Auc(neg, pos) == 1.0 - Auc(pos, neg)
  {
    PairsBothWays(pos, neg);
    assert |pos| * |neg| == |neg| * |pos| > 0;
    Share(Pairs(pos, neg), |pos| * |neg|);
  }

  /** Pairs of a class with itself: half of them. */
  lemma PairsWithin(xs: seq<real>)
    ensures Pairs(xs, xs) == |xs| * |xs|
  {
    PairsBothWays(xs, xs);
  }

  /** The scores of one label, in order. */
  function Select(y: seq<int>, s: seq<real>, wanted: int): seq<real>
    requires |y| == |s|
  {
    if y == [] then []
    else Select(y[..|y| - 1], s[..|s| - 1], wanted) + if y[|y| - 1] == wanted then [s[|s| - 1]] else []
  }

  ghost predicate Labels(y: seq<int>) {
    forall i :: 0 <= i < |y| ==> y[i] == 0 || y[i] == 1
  }

  /** The two classes together count what all samples count. */
  lemma {:induction false} ClassesCount(y: seq<int>, s: seq<real>, p: real -> bool)
    requires |y| == |s| && Labels(y)
    ensures Count(s, p) == Count(Select(y, s, 1), p) + Count(Select(y, s, 0), p)
  {
    if y != [] {
      var last := s[|s| - 1];
      ClassesCount(y[..|y| - 1], s[..|s| - 1], p);
      CountConcat(Select(y[..|y| - 1], s[..|s| - 1], 1), [last], p);
      CountConcat(Select(y[..|y| - 1], s[..|s| - 1], 0), [last], p);
      assert Count([last], p) == if p(last) then 1 else 0;
      assert forall t: seq<real> :: t + [] == t;
    }
  }
}
