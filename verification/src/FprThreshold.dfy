/** The score threshold whose false positive rate comes nearest to a target. */
module FprThreshold {
  import opened Results
  import opened RealArith
  import opened SortedLists
  import opened PairCounting
  import opened RankAuc

  function Share(k: int, n: nat): real
    requires n > 0
  {
    k as real / n as real
  }

  /** The false positive rate when scores from `t` on are flagged. */
  function Fpr(neg: seq<real>, t: real): real
    requires neg != []
  {
    Share(|neg| - BisectLeft(SortedCopy(neg), t), |neg|)
  }

  function Fnr(pos: seq<real>, t: real): real
    requires pos != []
  {
    Share(BisectLeft(SortedCopy(pos), t), |pos|)
  }

  function Rates(neg: seq<real>, candidates: seq<real>): (r: seq<real>)
    requires neg != []
    ensures |r| == |candidates|
  {
    seq(|candidates|, i requires 0 <= i < |candidates| => Fpr(neg, candidates[i]))
  }

  /** The number of leading rates up to and including the first one within the target. */
  function Cutoff(rates: seq<real>, target: real): (n: nat)
    ensures n <= |rates| && (rates != [] ==> n > 0)
  {
    if rates == [] then 0 else if rates[0] <= target then 1 else 1 + Cutoff(rates[1..], target)
  }

  function Distance(r: real, target: real): real {
    Magnitude(r - target)
  }

  /** The first position of the least distance among the first `n` rates. */
  function ArgMin(rates: seq<real>, target: real, n: nat): (k: nat)
    requires 0 < n <= |rates|
    ensures k < n
  {
    if n == 1 then 0
    else
      var k := ArgMin(rates, target, n - 1);
      if Distance(rates[n - 1], target) < Distance(rates[k], target) then n - 1 else k
  }

  datatype Choice = Choice(threshold: real, fpr: real, fnr: real)

  function Choose(pos: seq<real>, neg: seq<real>, candidates: seq<real>, target: real): Option<Choice>
    requires pos != [] && neg != []
  {
    var rates := Rates(neg, candidates);
    var end := Cutoff(rates, target);
    if end == 0 then None
    else
      var k := ArgMin(rates, target, end);
      Some(Choice(candidates[k], rates[k], Fnr(pos, candidates[k])))
  }

  function FindThreshold(y: seq<int>, s: seq<real>, target: real): Option<Choice>
    requires |y| == |s|
  {
    var pos, neg := Select(y, s, 1), Select(y, s, 0);
    if |pos| == 0 || |neg| == 0 then None else Choose(pos, neg, Unique(s), target)
  }

  /** `k` is the first position of the least distance among the first `n` rates. */
  ghost predicate Nearest(rates: seq<real>, target: real, n: nat, k: nat) {
    && k < n <= |rates|
    && (forall j :: 0 <= j < n ==> Distance(rates[k], target) <= Distance(rates[j], target))
    && forall j :: 0 <= j < k ==> Distance(rates[k], target) < Distance(rates[j], target)
  }

  lemma {:induction false} ArgMinMeaning(rates: seq<real>, target: real, n: nat)
    requires 0 < n <= |rates|
    ensures Nearest(rates, target, n, ArgMin(rates, target, n))
  {
    if n > 1 { ArgMinMeaning(rates, target, n - 1); }
  }

  ghost predicate Falling(r: seq<real>) {
    forall i, j :: 0 <= i <= j < |r| ==> r[i] >= r[j]
  }

  lemma {:induction false} CutoffMeaning(rates: seq<real>, target: real)
    requires Falling(rates)
    ensures var n := Cutoff(rates, target);
      (forall j :: 0 <= j < n - 1 ==> rates[j] > target) && (n < |rates| ==> n > 0 && rates[n - 1] <= target)
  {
    if rates != [] && rates[0] > target {
      CutoffMeaning(rates[1..], target);
      var n := Cutoff(rates, target);
      forall j | 0 <= j < n - 1 ensures rates[j] > target {
        if j > 0 { assert rates[j] == rates[1..][j - 1]; }
      }
    }
  }

  /** Cutting the search off loses nothing: rates only fall, so the least distance lies before the cut. */
  lemma CutLosesNothing(rates: seq<real>, target: real)
    requires rates != [] && Falling(rates)
    ensures Nearest(rates, target, |rates|, ArgMin(rates, target, Cutoff(rates, target)))
  {
    var n := Cutoff(rates, target);
    var k := ArgMin(rates, target, n);
    ArgMinMeaning(rates, target, n);
    CutoffMeaning(rates, target);
    forall j | 0 <= j < |rates| ensures Distance(rates[k], target) <= Distance(rates[j], target) {
      if j >= n {
        assert Distance(rates[n - 1], target) <= Distance(rates[j], target);
      }
    }
  }

  lemma QuotientMonotone(a: int, b: int, n: nat)
    requires a <= b && n > 0
    ensures Share(a, n) <= Share(b, n)
  {
  }

  lemma RatesFall(neg: seq<real>, candidates: seq<real>)
    requires neg != [] && Rising(candidates)
    ensures Falling(Rates(neg, candidates))
  {
    var r, sorted := Rates(neg, candidates), SortedCopy(neg);
    forall i, j | 0 <= i <= j < |r| ensures r[i] >= r[j] {
      var m, n := BisectLeft(sorted, candidates[i]), BisectLeft(sorted, candidates[j]);
      BisectOrder(sorted, candidates[i], candidates[j]);
      QuotientMonotone(|neg| - n, |neg| - m, |neg|);
    }
  }

  /** The rates are the shares of the negatives at or above the threshold and of the positives below it. */
  lemma RatesMeaning(neg: seq<real>, pos: seq<real>, t: real)
    requires neg != [] && pos != []
    ensures Fpr(neg, t) == Share(|neg| - CountLt(neg, t), |neg|)
    ensures Fnr(pos, t) == Share(CountLt(pos, t), |pos|)
  {
    BisectLeftCounts(SortedCopy(neg), neg, t);
    BisectLeftCounts(SortedCopy(pos), pos, t);
  }

  /** `c` is the lowest candidate with the nearest rate of all, with the two rates of that threshold. */
  ghost predicate BestChoice(pos: seq<real>, neg: seq<real>, candidates: seq<real>, target: real, c: Choice)
    requires pos != [] && neg != []
  {
    && (exists k: nat :: Nearest(Rates(neg, candidates), target, |candidates|, k) && c.threshold == candidates[k])
    && c.fpr == Fpr(neg, c.threshold)
    && c.fnr == Fnr(pos, c.threshold)
  }

  lemma ChosenRates(pos: seq<real>, neg: seq<real>, candidates: seq<real>, target: real, k: nat)
    requires pos != [] && neg != [] && candidates != []
    requires k == ArgMin(Rates(neg, candidates), target, Cutoff(Rates(neg, candidates), target))
    ensures Choose(pos, neg, candidates, target)
            == Some(Choice(candidates[k], Fpr(neg, candidates[k]), Fnr(pos, candidates[k])))
  {
  }

  lemma ChosenBest(pos: seq<real>, neg: seq<real>, candidates: seq<real>, target: real, k: nat)
    requires pos != [] && neg != [] && Nearest(Rates(neg, candidates), target, |candidates|, k)
    ensures BestChoice(pos, neg, candidates, target,
              Choice(candidates[k], Fpr(neg, candidates[k]), Fnr(pos, candidates[k])))
  {
  }

  lemma NearestChosen(neg: seq<real>, candidates: seq<real>, target: real) returns (k: nat)
    requires neg != [] && candidates != [] && Rising(candidates)
    ensures k == ArgMin(Rates(neg, candidates), target, Cutoff(Rates(neg, candidates), target))
    ensures Nearest(Rates(neg, candidates), target, |candidates|, k)
  {
    RatesFall(neg, candidates);
    CutLosesNothing(Rates(neg, candidates), target);
    k := ArgMin(Rates(neg, candidates), target, Cutoff(Rates(neg, candidates), target));
  }

  lemma ChoiceMeaning(pos: seq<real>, neg: seq<real>, candidates: seq<real>, target: real)
    requires pos != [] && neg != [] && candidates != [] && Rising(candidates)
    ensures Choose(pos, neg, candidates, target).Some?
    ensures BestChoice(pos, neg, candidates, target, Choose(pos, neg, candidates, target).value)
  {
    var k := NearestChosen(neg, candidates, target);
    ChosenRates(pos, neg, candidates, target, k);
    ChosenBest(pos, neg, candidates, target, k);
  }

  /** The candidates are the scores, in ascending order. */
  ghost predicate AreScores(candidates: seq<real>, s: seq<real>) {
    Rising(candidates) && forall x :: x in candidates <==> x in s
  }

  /** The choice is the best one among all scores, not only among those looked at. */
  lemma ThresholdMeaning(y: seq<int>, s: seq<real>, target: real)
    requires |y| == |s| && Select(y, s, 1) != [] && Select(y, s, 0) != []
    ensures AreScores(Unique(s), s)
    ensures FindThreshold(y, s, target).Some?
    ensures BestChoice(Select(y, s, 1), Select(y, s, 0), Unique(s), target, FindThreshold(y, s, target).value)
  {
    UniqueMeaning(s);
    UniqueOnly(s);
    assert s[0] in Unique(s);
    ChoiceMeaning(Select(y, s, 1), Select(y, s, 0), Unique(s), target);
  }
}
