/** The area under the ROC curve by binary search in the sorted negatives. */
module SearchAuc {
  import opened Results
  import opened SortedLists
  import opened PairCounting

  /** Wins of all positives, ties counted half. */
  function Wins(negSorted: seq<real>, pos: seq<real>): real {
    if pos == [] then 0.0
    else
      var left := BisectLeft(negSorted, pos[|pos| - 1]);
      var right := BisectRight(negSorted, pos[|pos| - 1]);
      Wins(negSorted, pos[..|pos| - 1]) + (left as real + (right - left) as real * 0.5)
  }

  function Searched(pos: seq<real>, neg: seq<real>): real
    requires pos != [] && neg != []
  {
    PerPair(Wins(SortedCopy(neg), pos), |pos|, |neg|)
  }

  function ComputeAuc(y: seq<int>, s: seq<real>): Option<real>
    requires |y| == |s|
  {
    var pos, neg := Select(y, s, 1), Select(y, s, 0);
    if |pos| == 0 || |neg| == 0 then None
    else Some(Searched(pos, neg))
  }

  lemma {:induction false} WinsArePairs(neg: seq<real>, pos: seq<real>)
    ensures Wins(SortedCopy(neg), pos) == Pairs(pos, neg) as real / 2.0
  {
    if pos != [] {
      var p := pos[|pos| - 1];
      WinsArePairs(neg, pos[..|pos| - 1]);
      BisectLeftCounts(SortedCopy(neg), neg, p);
      BisectRightCounts(SortedCopy(neg), neg, p);
      RowCounts(p, neg);
    }
  }

  /** The pairs won plus half the tied ones over all pairs; nothing when a class is empty. */
  lemma SearchMeaning(y: seq<int>, s: seq<real>)
    requires |y| == |s|
    ensures var pos, neg := Select(y, s, 1), Select(y, s, 0);
      ComputeAuc(y, s) == if pos == [] || neg == [] then None else Some(Auc(pos, neg))
  {
    var pos, neg := Select(y, s, 1), Select(y, s, 0);
    if pos != [] && neg != [] {
      SearchedMeaning(pos, neg);
    }
  }

  lemma SearchedMeaning(pos: seq<real>, neg: seq<real>)
    requires pos != [] && neg != []
    ensures Searched(pos, neg) == Auc(pos, neg)
  {
    WinsArePairs(neg, pos);
  }
}
