/** The area under the ROC curve by the rank-sum formula, ties sharing their mean rank. */
module RankAuc {
  import opened Results
  import opened Counting
  import opened SortedLists
  import opened PairCounting
  import opened Midranks
  import SearchAuc

  /** The distinct scores, ascending. */
  function Unique(s: seq<real>): seq<real> {
    if s == [] then []
    else
      var r := Unique(s[..|s| - 1]);
      if s[|s| - 1] in r then r else Insort(r, s[|s| - 1])
  }

  ghost predicate Rising(s: seq<real>) {
    forall i, j :: 0 <= i < j < |s| ==> s[i] < s[j]
  }

  lemma InsertNew(s: seq<real>, v: real)
    requires Rising(s) && v !in s
    ensures Rising(Insort(s, v)) && v in Insort(s, v)
    ensures forall x :: x in s ==> x in Insort(s, v)
  {
    BisectRightSplits(s, v);
    var n := BisectRight(s, v);
    assert Insort(s, v)[n] == v;
    forall x | x in s ensures x in Insort(s, v) {
      InsertKeeps(s, v, x);
    }
  }

  lemma InsertKeeps(s: seq<real>, v: real, x: real)
    requires x in s
    ensures x in Insort(s, v)
  {
    var i :| 0 <= i < |s| && s[i] == x;
    var n := BisectRight(s, v);
    if i < n { assert Insort(s, v)[i] == x; } else { assert Insort(s, v)[i + 1] == x; }
  }

  lemma {:induction false} UniqueMeaning(s: seq<real>)
    ensures Rising(Unique(s)) && forall k :: 0 <= k < |s| ==> s[k] in Unique(s)
  {
    if s != [] {
      var front, v := s[..|s| - 1], s[|s| - 1];
      UniqueMeaning(front);
      if v !in Unique(front) { InsertNew(Unique(front), v); }
      forall k | 0 <= k < |s| ensures s[k] in Unique(s) {
        if k < |front| { assert s[k] == front[k]; }
      }
    }
  }

  lemma {:induction false} UniqueOnly(s: seq<real>)
    ensures forall x :: x in Unique(s) ==> x in s
  {
    if s != [] {
      var front, v := s[..|s| - 1], s[|s| - 1];
      UniqueOnly(front);
      forall x | x in Unique(s) ensures x in s {
        assert x in Unique(front) || x == v;
        assert x in front ==> x in s;
      }
    }
  }

  /** The group of each sample: where its score stands among the distinct ones. */
  function Inverse(uniq: seq<real>, v: real): nat {
    BisectLeft(uniq, v)
  }

  lemma GroupOf(s: seq<real>, k: nat)
    requires k < |s|
    ensures Inverse(Unique(s), s[k]) < |Unique(s)| && Unique(s)[Inverse(Unique(s), s[k])] == s[k]
  {
    var u := Unique(s);
    UniqueMeaning(s);
    BisectLeftSplits(u, s[k]);
    var i :| 0 <= i < |u| && u[i] == s[k];
    assert !(u[i] < s[k]);
  }

  /** Ranks in score order, equal scores in order of arrival. */
  method RankSamples(s: seq<real>) returns (ranks: array<real>)
    ensures fresh(ranks) && Ranked(s, ranks[..])
  {
    var order := ArgSort(s, |s|);
    ArgSortDistinct(s, |s|);
    ranks := new real[|s|](_ => 0.0);
    for i := 0 to |s|
      invariant forall j :: 0 <= j < i ==> ranks[order[j]] == (j + 1) as real
    {
      ranks[order[i]] := (i + 1) as real;
    }
  }

  /** The first `n` samples are added up per group. */
  ghost predicate Summed(s: seq<real>, ranks: seq<real>, uniq: seq<real>, n: nat, sums: seq<real>, counts: seq<nat>)
    requires n <= |s|
  {
    && |sums| == |counts| == |uniq|
    && (forall g :: 0 <= g < |uniq| ==> sums[g] == Total(Indices(n), RankIf(s, ranks, uniq[g])))
    && forall g :: 0 <= g < |uniq| ==> counts[g] == Copies(s[..n], uniq[g])
  }

  lemma SummedStart(s: seq<real>, ranks: seq<real>, uniq: seq<real>, sums: seq<real>, counts: seq<nat>)
    requires |sums| == |counts| == |uniq|
    requires forall g :: 0 <= g < |uniq| ==> sums[g] == 0.0 && counts[g] == 0
    ensures Summed(s, ranks, uniq, 0, sums, counts)
  {
  }

  lemma SummedNext(s: seq<real>, ranks: seq<real>, uniq: seq<real>, n: nat, sums: seq<real>, counts: seq<nat>, g: nat)
    requires n < |s| == |ranks| && Summed(s, ranks, uniq, n, sums, counts)
    requires Rising(uniq) && g < |uniq| && uniq[g] == s[n]
    ensures Summed(s, ranks, uniq, n + 1, sums[g := sums[g] + ranks[n]], counts[g := counts[g] + 1])
  {
    assert s[..n + 1][..n] == s[..n];
    forall h | 0 <= h < |uniq| && h != g ensures uniq[h] != s[n] {
    }
    assert Indices(n + 1)[..n] == Indices(n);
    assert RankIf(s, ranks, uniq[g])(n) == ranks[n];
  }

  /** One sample into its group. */
  method AddToGroup(sums: array<real>, counts: array<nat>, g: nat, rank: real)
    requires g < sums.Length == counts.Length
    modifies sums, counts
    ensures sums[..] == old(sums[..])[g := old(sums[g]) + rank]
    ensures counts[..] == old(counts[..])[g := old(counts[g]) + 1]
  {
    sums[g] := sums[g] + rank;
    counts[g] := counts[g] + 1;
  }

  /** Adding one sample to its group accounts for one more sample. */
  lemma SampleAdded(s: seq<real>, ranks: seq<real>, uniq: seq<real>, k: nat,
                    sums: seq<real>, counts: seq<nat>, sums': seq<real>, counts': seq<nat>)
    requires k < |s| == |ranks| && Rising(uniq) && s[k] in uniq
    requires Summed(s, ranks, uniq, k, sums, counts)
    requires Inverse(uniq, s[k]) < |uniq| && uniq[Inverse(uniq, s[k])] == s[k]
    requires sums' == sums[Inverse(uniq, s[k]) := sums[Inverse(uniq, s[k])] + ranks[k]]
    requires counts' == counts[Inverse(uniq, s[k]) := counts[Inverse(uniq, s[k])] + 1]
    ensures Summed(s, ranks, uniq, k + 1, sums', counts')
  {
    SummedNext(s, ranks, uniq, k, sums, counts, Inverse(uniq, s[k]));
  }

  /** The k-th sample goes into the group of its score. */
  method AddSample(s: seq<real>, uniq: seq<real>, rank: real, k: nat, sums: array<real>, counts: array<nat>,
                   ghost ranks: seq<real>)
    requires k < |s| == |ranks| && rank == ranks[k]
    requires Rising(uniq) && s[k] in uniq && Inverse(uniq, s[k]) < |uniq| && uniq[Inverse(uniq, s[k])] == s[k]
    requires Summed(s, ranks, uniq, k, sums[..], counts[..])
    modifies sums, counts
    ensures Summed(s, ranks, uniq, k + 1, sums[..], counts[..])
  {
    ghost var before, sizes := sums[..], counts[..];
    AddToGroup(sums, counts, Inverse(uniq, s[k]), rank);
    SampleAdded(s, ranks, uniq, k, before, sizes, sums[..], counts[..]);
  }

  /** Rank sum and size of every group of equal scores. */
  method TieGroups(s: seq<real>, ranks: array<real>) returns (sums: array<real>, counts: array<nat>)
    requires ranks.Length == |s|
    ensures fresh(sums) && fresh(counts)
    ensures Summed(s, ranks[..], Unique(s), |s|, sums[..], counts[..])
  {
    var uniq := Unique(s);
    ghost var r := ranks[..];
    sums := new real[|uniq|](_ => 0.0);
    counts := new nat[|uniq|](_ => 0);
    SummedStart(s, r, uniq, sums[..], counts[..]);
    for k := 0 to |s|
      invariant ranks[..] == r
      invariant Summed(s, r, uniq, k, sums[..], counts[..])
    {
      UniqueMeaning(s);
      GroupOf(s, k);
      AddSample(s, uniq, ranks[k], k, sums, counts, r);
    }
  }

  /** Halfway between the ranks of the first and the last copy. */
  ghost function MidRank(s: seq<real>, v: real): real {
    (CountLt(s, v) + CountLe(s, v) + 1) as real / 2.0
  }

  lemma {:induction false} CopiesBetween(s: seq<real>, v: real)
    ensures Copies(s, v) + CountLt(s, v) == CountLe(s, v)
  {
    if s != [] { CopiesBetween(s[..|s| - 1], v); }
  }

  lemma MeanOfRun(total: real, lt: nat, le: nat, c: nat)
    requires c > 0 && c + lt == le && total == (Triangle(le) - Triangle(lt)) as real
    ensures total / c as real == (lt + le + 1) as real / 2.0
  {
    var d := Triangle(le) - Triangle(lt);
    TriangleMeaning(le);
    TriangleMeaning(lt);
    Widths(lt, c);
    Halved(d, c, lt + le + 1);
  }

  lemma Widths(lt: nat, c: nat)
    ensures (lt + c) * (lt + c + 1) - lt * (lt + 1) == c * (lt + (lt + c) + 1)
  {
  }

  lemma Halved(d: int, c: nat, m: int)
    requires c > 0 && 2 * d == c * m
    ensures d as real / c as real == m as real / 2.0
  {
    var x, y := c as real, m as real;
    assert (c * m) as real == x * y;
    assert d as real == x * y / 2.0;
    assert d as real / x == y / 2.0;
  }

  /** The mean rank of a group is the mid-rank of its score. */
  lemma MeanRank(s: seq<real>, ranks: seq<real>, v: real)
    requires Ranked(s, ranks) && v in s
    ensures Copies(s, v) > 0
    ensures Total(Indices(|s|), RankIf(s, ranks, v)) / Copies(s, v) as real == MidRank(s, v)
  {
    var k :| 0 <= k < |s| && s[k] == v;
    CountPositive(s, Equals(v), k);
    CopiesBetween(s, v);
    RankSumOfCopies(s, ranks, v);
    MeanOfRun(Total(Indices(|s|), RankIf(s, ranks, v)), CountLt(s, v), CountLe(s, v), Copies(s, v));
  }

  /** Ranks with ties averaged. */
  method MeanRanks(s: seq<real>) returns (ranks: array<real>)
    ensures ranks.Length == |s| && forall k :: 0 <= k < |s| ==> ranks[k] == MidRank(s, s[k])
  {
    ranks := RankSamples(s);
    var sums, counts := TieGroups(s, ranks);
    ghost var r := ranks[..];
    var uniq := Unique(s);
    assert s[..|s|] == s;
    for k := 0 to |s|
      invariant Summed(s, r, uniq, |s|, sums[..], counts[..])
      invariant forall j :: 0 <= j < k ==> ranks[j] == MidRank(s, s[j])
    {
      var g := Inverse(uniq, s[k]);
      GroupOf(s, k);
      MeanRank(s, r, s[k]);
      ranks[k] := sums[g] / counts[g] as real;
    }
  }

  /** The mid-ranks, among the scores `s`, of a list of scores added up. */
  ghost function MidSum(s: seq<real>, xs: seq<real>): real {
    if xs == [] then 0.0 else MidSum(s, xs[..|xs| - 1]) + MidRank(s, xs[|xs| - 1])
  }

  /** Mid-ranks among both classes count the pairs against each class. */
  lemma {:induction false} MidSumPairs(y: seq<int>, s: seq<real>, xs: seq<real>)
    requires |y| == |s| && Labels(y)
    ensures MidSum(s, xs)
            == (Pairs(xs, Select(y, s, 1)) + Pairs(xs, Select(y, s, 0)) + |xs|) as real / 2.0
  {
    if xs != [] {
      var x := xs[|xs| - 1];
      MidSumPairs(y, s, xs[..|xs| - 1]);
      RowCounts(x, Select(y, s, 1));
      RowCounts(x, Select(y, s, 0));
      ClassesCount(y, s, Under(x));
      ClassesCount(y, s, AtMost(x));
    }
  }

  /** A rank sum of `p` positives less its least possible value. */
  function Excess(sum: real, p: int): real {
    sum - (p * (p + 1)) as real / 2.0
  }

  /** A rank sum made of `within`, `across` and `p` is as far above its least value as `across` says. */
  lemma ExcessMeaning(p: nat, within: int, across: int)
    requires within == p * p
    ensures Excess((within + across + p) as real / 2.0, p) == across as real / 2.0
  {
    assert p * (p + 1) == within + p;
  }

  /** The rank sum of the positives, less its least possible value, is the number of pairs they win. */
  lemma RankSumMeaning(y: seq<int>, s: seq<real>)
    requires |y| == |s| && Labels(y)
    ensures var pos, neg := Select(y, s, 1), Select(y, s, 0);
      Excess(MidSum(s, pos), |pos|) == Pairs(pos, neg) as real / 2.0
  {
    var pos, neg := Select(y, s, 1), Select(y, s, 0);
    MidSumPairs(y, s, pos);
    PairsWithin(pos);
    ExcessMeaning(|pos|, Pairs(pos, pos), Pairs(pos, neg));
  }

  function Positives(y: seq<int>): int {
    if y == [] then 0 else Positives(y[..|y| - 1]) + y[|y| - 1]
  }

  lemma {:induction false} ClassSizes(y: seq<int>, s: seq<real>)
    requires |y| == |s| && Labels(y)
    ensures |Select(y, s, 1)| == Positives(y) && |Select(y, s, 0)| == |y| - Positives(y)
  {
    if y != [] { ClassSizes(y[..|y| - 1], s[..|s| - 1]); }
  }

  method SumPositiveRanks(y: seq<int>, s: seq<real>, ranks: array<real>) returns (sum: real)
    requires |y| == |s| == ranks.Length
    requires forall k :: 0 <= k < |s| ==> ranks[k] == MidRank(s, s[k])
    ensures sum == MidSum(s, Select(y, s, 1))
  {
    sum := 0.0;
    for k := 0 to |y|
      invariant sum == MidSum(s, Select(y[..k], s[..k], 1))
    {
      MidSumNext(y, s, k);
      if y[k] == 1 { sum := sum + ranks[k]; }
    }
    assert y[..|y|] == y && s[..|s|] == s;
  }

  lemma MidSumNext(y: seq<int>, s: seq<real>, k: nat)
    requires k < |y| == |s|
    ensures MidSum(s, Select(y[..k + 1], s[..k + 1], 1))
            == MidSum(s, Select(y[..k], s[..k], 1)) + if y[k] == 1 then MidRank(s, s[k]) else 0.0
  {
    assert y[..k + 1][..k] == y[..k] && s[..k + 1][..k] == s[..k];
    var xs := Select(y[..k], s[..k], 1);
    assert xs + [] == xs;
    assert (xs + [s[k]])[..|xs|] == xs;
  }

  /** The rank-sum formula, whatever the labels are: positives are counted by their sum. */
  ghost function RankFormula(y: seq<int>, s: seq<real>): Option<real>
    requires |y| == |s|
  {
    var p := Positives(y);
    var n := |y| - p;
    if |y| < 2 || p == 0 || n == 0 then None
    else Some(PerPair(Excess(MidSum(s, Select(y, s, 1)), p), p, n))
  }

  /** On labels 0 and 1 it is the area under the curve, and nothing when a class is missing. */
  lemma RankFormulaMeaning(y: seq<int>, s: seq<real>)
    requires |y| == |s| && Labels(y)
    ensures var pos, neg := Select(y, s, 1), Select(y, s, 0);
      RankFormula(y, s) == if pos == [] || neg == [] then None else Some(Auc(pos, neg))
  {
    ClassSizes(y, s);
    var pos, neg := Select(y, s, 1), Select(y, s, 0);
    assert |y| == |pos| + |neg|;
    if pos != [] && neg != [] {
      assert RankFormula(y, s) == Some(PerPair(Excess(MidSum(s, pos), |pos|), |pos|, |neg|));
      assert Excess(MidSum(s, pos), |pos|) == Pairs(pos, neg) as real / 2.0 by { RankSumMeaning(y, s); }
    }
  }

  /** The area from the ranks. */
  method FromRanks(y: seq<int>, s: seq<real>, nPos: int, nNeg: int) returns (auc: real)
    requires |y| == |s| && nPos != 0 && nNeg != 0
    ensures auc == PerPair(Excess(MidSum(s, Select(y, s, 1)), nPos), nPos, nNeg)
  {
    var ranks := MeanRanks(s);
    var sumRanksPos := SumPositiveRanks(y, s, ranks);
    var u := Excess(sumRanksPos, nPos);
    auc := PerPair(u, nPos, nNeg);
  }

  /** The rank-sum formula on every input, and on labels 0 and 1 the same as the binary-search form. */
  method ComputeAuc(y: seq<int>, s: seq<real>) returns (auc: Option<real>)
    requires |y| == |s|
    ensures auc == RankFormula(y, s)
    ensures Labels(y) ==> auc == SearchAuc.ComputeAuc(y, s)
  {
    assert Labels(y) ==> RankFormula(y, s) == SearchAuc.ComputeAuc(y, s) by {
      if Labels(y) { FormsAgree(y, s); }
    }
    var n := |y|;
    if n < 2 { return None; }
    var nPos := Positives(y);
    var nNeg := n - nPos;
    if nPos == 0 || nNeg == 0 { return None; }
    var value := FromRanks(y, s, nPos, nNeg);
    auc := Some(value);
  }

  /** The two forms are equal on every 0/1-labelled input. */
  lemma FormsAgree(y: seq<int>, s: seq<real>)
    requires |y| == |s| && Labels(y)
    ensures RankFormula(y, s) == SearchAuc.ComputeAuc(y, s)
  {
    RankFormulaMeaning(y, s);
    SearchAuc.SearchMeaning(y, s);
  }
}
