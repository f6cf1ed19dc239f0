/** Calibrating a feature on its warm-up values: reference mean, scale, and the normalised signal. */
module Calibration {
  import opened SortedLists
  import opened RealArith

  const EPS := 0.000_000_000_001

  /** Distance of each value from the mean of the values up to it. */
  function Deviations(h: seq<real>): (d: seq<real>)
    ensures |d| == |h|
  {
    if h == [] then []
    else Deviations(h[..|h| - 1]) + [Magnitude(h[|h| - 1] - Mean(Sum(h), |h|))]
  }

  /** 0.99 n rounded up: the nearest rank of the 99th percentile of n values, before it is clamped to 1..n. */
  function Ceil99(n: nat): int {
    (99 * n + 99) / 100
  }

  function Rank(n: nat): int {
    var r := Ceil99(n);
    if r < 1 then 1 else if r > n then n else r
  }

  /** The clamps never act on a non-empty list. */
  lemma RankInside(n: nat)
    requires n > 0
    ensures 1 <= Ceil99(n) <= n && Rank(n) == Ceil99(n)
    ensures 100 * (Rank(n) - 1) < 99 * n <= 100 * Rank(n)
  {
  }

  function Largest(devs: seq<real>): real {
    if devs == [] then 0.0
    else
      var m := Largest(devs[..|devs| - 1]);
      if devs[|devs| - 1] > m then devs[|devs| - 1] else m
  }

  function ScaleEstimate(useP99: bool, devs: seq<real>): real {
    if devs == [] then 0.0
    else if useP99 then
      RankInside(|devs|);
      SortedLength(devs);
      SortedCopy(devs)[Rank(|devs|) - 1]
    else Largest(devs)
  }

  lemma SortedLength(xs: seq<real>)
    ensures |SortedCopy(xs)| == |xs|
  {
    assert |multiset(SortedCopy(xs))| == |multiset(xs)|;
  }

  /** The k-th smallest of a list: fewer than k values lie below it, and at least k do not lie above. */
  lemma OrderStatistic(xs: seq<real>, k: nat)
    requires 0 < k <= |xs|
    ensures |SortedCopy(xs)| == |xs|
    ensures var e := SortedCopy(xs)[k - 1]; e in xs && CountLt(xs, e) < k <= CountLe(xs, e)
  {
    SortedLength(xs);
    var s := SortedCopy(xs);
    var e := s[k - 1];
    BisectLeftSplits(s, e);
    BisectRightSplits(s, e);
    BisectLeftCounts(s, xs, e);
    BisectRightCounts(s, xs, e);
    assert e in multiset(s);
  }

  /** The p99 scale is a deviation such that under 99% of all are below it and at least 99% at most it. */
  lemma P99Meaning(devs: seq<real>)
    requires devs != []
    ensures var e := ScaleEstimate(true, devs);
      e in devs && 100 * CountLt(devs, e) < 99 * |devs| <= 100 * CountLe(devs, e)
  {
    RankInside(|devs|);
    OrderStatistic(devs, Rank(|devs|));
  }

  /** Those two shares pin the estimate down. */
  lemma P99Unique(devs: seq<real>, e: real)
    requires devs != []
    requires e in devs && 100 * CountLt(devs, e) < 99 * |devs| <= 100 * CountLe(devs, e)
    ensures e == ScaleEstimate(true, devs)
  {
    P99Meaning(devs);
    var f := ScaleEstimate(true, devs);
    if e < f { LeBelow(devs, e, f); }
    if f < e { LeBelow(devs, f, e); }
  }

  lemma {:induction false} LeBelow(xs: seq<real>, e: real, f: real)
    requires e < f
    ensures CountLe(xs, e) <= CountLt(xs, f)
  {
    if xs != [] { LeBelow(xs[..|xs| - 1], e, f); }
  }

  lemma {:induction false} LargestMeaning(devs: seq<real>)
    requires devs != [] && forall i :: 0 <= i < |devs| ==> devs[i] >= 0.0
    ensures Largest(devs) in devs && forall i :: 0 <= i < |devs| ==> devs[i] <= Largest(devs)
  {
    if |devs| > 1 { LargestMeaning(devs[..|devs| - 1]); }
  }

  lemma {:induction false} DeviationsPositive(h: seq<real>)
    ensures forall i :: 0 <= i < |h| ==> Deviations(h)[i] >= 0.0
  {
    if h != [] { DeviationsPositive(h[..|h| - 1]); }
  }

  /** In maxdev mode the scale is the largest deviation seen in the warm-up. */
  lemma MaxdevMeaning(h: seq<real>)
    requires h != []
    ensures var devs := Deviations(h); var e := ScaleEstimate(false, devs);
      e in devs && forall i :: 0 <= i < |h| ==> 0.0 <= devs[i] <= e
  {
    DeviationsPositive(h);
    LargestMeaning(Deviations(h));
  }

  /** What the warm-up leaves behind for the detection phase. */
  datatype Reference = Reference(mean: real, scale: real)

  function Calibrated(useP99: bool, warm: seq<real>): Reference
    requires warm != []
  {
    var s := ScaleEstimate(useP99, Deviations(warm));
    Reference(Mean(Sum(warm), |warm|), if s > EPS then s else EPS)
  }

  lemma MeanTimes(sum: real, n: nat)
    requires n > 0
    ensures Times(n as real, Mean(sum, n)) == sum
  {
  }

  /** `m` is the mean of the values. */
  ghost predicate IsMean(m: real, values: seq<real>) {
    values != [] && Times(|values| as real, m) == Sum(values)
  }

  /** Each deviation is the distance of a value from the mean of the values up to it. */
  lemma {:induction false} DeviationsAt(h: seq<real>, i: nat) returns (m: real)
    requires i < |h|
    ensures IsMean(m, h[..i + 1]) && Deviations(h)[i] == Magnitude(h[i] - m)
  {
    if i < |h| - 1 {
      m := DeviationsAt(h[..|h| - 1], i);
      assert h[..|h| - 1][..i + 1] == h[..i + 1];
    } else {
      assert h[..i + 1] == h;
      m := Mean(Sum(h), |h|);
      MeanTimes(Sum(h), |h|);
    }
  }

  /** The number under which fewer than 99% of the deviations lie, or the largest of them. */
  ghost predicate IsEstimate(useP99: bool, devs: seq<real>, e: real) {
    && e in devs
    && if useP99 then 100 * CountLt(devs, e) < 99 * |devs| <= 100 * CountLe(devs, e)
       else forall i :: 0 <= i < |devs| ==> devs[i] <= e
  }

  lemma EstimateMeaning(useP99: bool, warm: seq<real>)
    requires warm != []
    ensures IsEstimate(useP99, Deviations(warm), ScaleEstimate(useP99, Deviations(warm)))
  {
    if useP99 { P99Meaning(Deviations(warm)); } else { MaxdevMeaning(warm); }
  }

  /** The frozen reference: the mean of the warm-up, and the estimate of its deviations, kept away from 0. */
  lemma ReferenceMeaning(useP99: bool, warm: seq<real>) returns (e: real)
    requires warm != []
    ensures IsMean(Calibrated(useP99, warm).mean, warm)
    ensures IsEstimate(useP99, Deviations(warm), e)
    ensures Calibrated(useP99, warm).scale == if e > 0.000_000_000_001 then e else 0.000_000_000_001
  {
    e := ScaleEstimate(useP99, Deviations(warm));
    MeanTimes(Sum(warm), |warm|);
    EstimateMeaning(useP99, warm);
  }

  function Signal(r: Reference, x: real): real
    requires r.scale > 0.0
  {
    var y := Magnitude(x - r.mean) / r.scale;
    if y < 1.0 then y else 1.0
  }

  /** The signals of the values after the warm-up. */
  function Signals(useP99: bool, w: nat, h: seq<real>): (s: seq<real>)
    requires 0 < w <= |h|
    ensures |s| == |h| - w
  {
    var r := Calibrated(useP99, h[..w]);
    seq(|h| - w, i requires 0 <= i < |h| - w => Signal(r, h[w + i]))
  }

  lemma QuotientPositive(a: real, b: real)
    requires a >= 0.0 && b > 0.0
    ensures a / b >= 0.0
  {
  }

  lemma SignalUnit(r: Reference, x: real)
    requires r.scale > 0.0
    ensures 0.0 <= Signal(r, x) <= 1.0
    ensures Signal(r, x) == 1.0 <==> Magnitude(x - r.mean) >= r.scale
    ensures Signal(r, x) < 1.0 ==> Times(r.scale, Signal(r, x)) == Magnitude(x - r.mean)
  {
    QuotientPositive(Magnitude(x - r.mean), r.scale);
    var y := Magnitude(x - r.mean) / r.scale;
    assert Times(r.scale, y) == Magnitude(x - r.mean);
    if y >= 1.0 { Monotone(r.scale, 1.0, y); } else { Below(r.scale, y); }
  }

  lemma Below(s: real, y: real)
    requires s > 0.0 && y < 1.0
    ensures Times(s, y) < s
  {
  }

  /** The reference is frozen: a later value adds its own signal and changes none before. */
  lemma SignalsGrow(useP99: bool, w: nat, h: seq<real>, x: real)
    requires 0 < w <= |h|
    ensures Signals(useP99, w, h + [x])
            == Signals(useP99, w, h) + [Signal(Calibrated(useP99, h[..w]), x)]
  {
    assert (h + [x])[..w] == h[..w];
  }
}
