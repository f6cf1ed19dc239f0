/** What the exponentially weighted detector sees: its averages, and when they can be judged a drift. */
module EwmaModel {
  import opened DriftEvents
  import opened RealArith
  import opened MeanTest

  /**
    `epsilon` is the Hoeffding bound of one EWMA value, `warnTimeout` the number of samples a warning may last.
   */
  datatype Config = Config(lambda: real, epsilon: real, limits: Thresholds, warnTimeout: nat)

  ghost predicate Admissible(c: Config) {
    0.0 < c.lambda <= 1.0 && c.epsilon > 0.0
  }

  /** One step of the recursion: the old average against a new value. */
  function Blend(l: real, average: real, x: real): real {
    Times(1.0 - l, average) + Times(l, x)
  }

  /** The average a drift must exceed the least one by: epsilon * (1 + rho) for thresholds of a ratio rho. */
  function Margin(c: Config): real {
    c.epsilon + c.limits.drift(c.epsilon)
  }

  /** The exponentially weighted average, newest value with weight lambda. */
  function Average(l: real, h: seq<real>): real
    requires h != []
  {
    if |h| == 1 then h[0] else Blend(l, Average(l, h[..|h| - 1]), h[|h| - 1])
  }

  /** The weight of the i-th of n values. */
  function Weight(l: real, n: nat, i: nat): real
    requires i < n
  {
    Times(if i == 0 then 1.0 else l, Power(1.0 - l, n - 1 - i))
  }

  /** The leading values of a run of n, under the weights of the whole run. */
  function Weighted(l: real, h: seq<real>, n: nat): real
    requires |h| <= n
  {
    if h == [] then 0.0 else Weighted(l, h[..|h| - 1], n) + Times(Weight(l, n, |h| - 1), h[|h| - 1])
  }

  lemma WeightAges(l: real, n: nat, i: nat)
    requires i < n
    ensures Weight(l, n + 1, i) == Times(1.0 - l, Weight(l, n, i))
  {
    Associates(if i == 0 then 1.0 else l, 1.0 - l, Power(1.0 - l, n - 1 - i));
  }

  lemma {:induction false} OlderWeights(l: real, h: seq<real>, n: nat)
    requires |h| <= n
    ensures Weighted(l, h, n + 1) == Times(1.0 - l, Weighted(l, h, n))
  {
    if h != [] {
      var front, i := h[..|h| - 1], |h| - 1;
      OlderWeights(l, front, n);
      WeightAges(l, n, i);
      Associates(1.0 - l, Weight(l, n, i), h[i]);
      Distributes(1.0 - l, Weighted(l, front, n), Times(Weight(l, n, i), h[i]));
    }
  }

  /** The recursion computes the weighted sum: weight lambda * (1 - lambda)^age, the first value keeping the rest. */
  lemma {:induction false} AverageIsWeighted(l: real, h: seq<real>)
    requires h != []
    ensures Average(l, h) == Weighted(l, h, |h|)
  {
    if |h| > 1 {
      var front := h[..|h| - 1];
      AverageIsWeighted(l, front);
      OlderWeights(l, front, |front|);
    } else {
      assert h[..0] == [];
    }
  }

  /** What the test is shown, sample by sample. */
  function Shown(c: Config, h: seq<real>): seq<Obs> {
    if h == [] then [] else Shown(c, h[..|h| - 1]) + [Obs(Average(c.lambda, h), c.epsilon)]
  }

  lemma {:induction false} ShownAt(c: Config, h: seq<real>, k: nat)
    requires k < |h|
    ensures |Shown(c, h)| == |h| && Shown(c, h)[k] == Obs(Average(c.lambda, h[..k + 1]), c.epsilon)
  {
    var front := h[..|h| - 1];
    if k < |front| {
      ShownAt(c, front, k);
      assert front[..k + 1] == h[..k + 1];
    } else {
      assert h[..k + 1] == h;
      if front != [] { ShownAt(c, front, 0); }
    }
  }

  /** `m` is the least average over all non-empty prefixes of the run. */
  ghost predicate LeastAverage(l: real, h: seq<real>, m: real) {
    && (exists k :: 0 < k <= |h| && Average(l, h[..k]) == m)
    && forall k :: 0 < k <= |h| ==> m <= Average(l, h[..k])
  }

  lemma LeastShown(c: Config, h: seq<real>, i: nat)
    requires |Shown(c, h)| == |h| && Lowest(Shown(c, h), i)
    ensures LeastAverage(c.lambda, h, Shown(c, h)[i].mean) && Shown(c, h)[i].bound == c.epsilon
  {
    var s := Shown(c, h);
    ShownAt(c, h, i);
    forall k | 0 < k <= |h| ensures s[i].mean <= Average(c.lambda, h[..k]) {
      ShownAt(c, h, k - 1);
      assert Upper(s[k - 1]) >= Upper(s[i]);
    }
    assert Average(c.lambda, h[..i + 1]) == s[i].mean;
  }

  /** The best bound is always epsilon, and the best mean the least average since the reset. */
  lemma BestIsLeast(c: Config, h: seq<real>)
    requires Admissible(c) && h != []
    ensures var best := Run(c.limits, Shown(c, h)).best; best.bound == c.epsilon && LeastAverage(c.lambda, h, best.mean)
  {
    ShownAt(c, h, 0);
    var i := LowestExists(c.limits, Shown(c, h));
    LeastShown(c, h, i);
  }

  /** What the test compares: the present average and the least one, both with the bound epsilon. */
  lemma Compared(c: Config, h: seq<real>, m: real) returns (i: nat)
    requires Admissible(c) && h != [] && LeastAverage(c.lambda, h, m)
    ensures |Shown(c, h)| == |h| && Lowest(Shown(c, h), i)
    ensures Shown(c, h)[i] == Obs(m, c.epsilon) && Shown(c, h)[|h| - 1] == Obs(Average(c.lambda, h), c.epsilon)
  {
    ShownAt(c, h, |h| - 1);
    assert h[..|h|] == h;
    i := LowestExists(c.limits, Shown(c, h));
    LeastShown(c, h, i);
    var k :| 0 < k <= |h| && Average(c.lambda, h[..k]) == m;
    assert Shown(c, h)[i].mean == m;
  }

  /** A drift is an average more than epsilon * (1 + rho) above the least one so far. */
  lemma DriftMeaning(c: Config, h: seq<real>, m: real)
    requires Admissible(c) && h != [] && LeastAverage(c.lambda, h, m)
    ensures Shown(c, h) != [] &&
            (Status(c.limits, Shown(c, h)) == DRIFT <==> Average(c.lambda, h) - m > Margin(c))
  {
    var i := Compared(c, h, m);
    StatusAbove(c.limits, Shown(c, h), i);
    AboveMargin(c, Average(c.lambda, h), m);
  }

  lemma AboveMargin(c: Config, mean: real, m: real)
    ensures Above(Obs(mean, c.epsilon), Obs(m, c.epsilon), c.limits.drift(c.epsilon)) <==> mean - m > Margin(c)
  {
  }

  lemma RatioMargin(c: Config, rho: real)
    requires rho > 1.0 && c.limits == OfRatio(rho)
    ensures Margin(c) == Times(c.epsilon, 1.0 + rho)
  {
    Distributes(c.epsilon, 1.0, rho);
  }

  lemma AboveWarning(rho: real, mean: real, m: real, eps: real)
    requires rho > 1.0
    ensures Above(Obs(mean, eps), Obs(m, eps), OfRatio(rho).warn(eps)) <==> Times(rho, mean - m - eps) > eps
  {
    var d, w := mean - m - eps, Times(eps, 1.0 / rho);
    assert Times(rho, w) == eps by {
      Associates(rho, eps, 1.0 / rho);
      assert Times(rho, 1.0 / rho) == 1.0;
    }
    if d <= w { Monotone(rho, d, w); } else { Further(rho, w, d); }
  }

  lemma Further(rho: real, a: real, b: real)
    requires rho > 0.0 && a < b
    ensures Times(rho, a) < Times(rho, b)
  {
  }

  /** Between the two distances: a warning and no drift. */
  ghost predicate InWarning(limits: Thresholds, mean: real, m: real, eps: real) {
    && !Above(Obs(mean, eps), Obs(m, eps), limits.drift(eps))
    && Above(Obs(mean, eps), Obs(m, eps), limits.warn(eps))
  }

  lemma WarnDistance(c: Config, rho: real, mean: real, m: real)
    requires rho > 1.0 && c.limits == OfRatio(rho)
    ensures InWarning(c.limits, mean, m, c.epsilon) <==>
      mean - m <= Times(c.epsilon, 1.0 + rho) && Times(rho, mean - m - c.epsilon) > c.epsilon
  {
    AboveMargin(c, mean, m);
    RatioMargin(c, rho);
    AboveWarning(rho, mean, m, c.epsilon);
  }

  lemma WarnCompared(c: Config, h: seq<real>, m: real)
    requires Admissible(c) && h != [] && LeastAverage(c.lambda, h, m)
    ensures Shown(c, h) != []
    ensures Status(c.limits, Shown(c, h)) == WARN <==> InWarning(c.limits, Average(c.lambda, h), m, c.epsilon)
  {
    var i := Compared(c, h, m);
    StatusAbove(c.limits, Shown(c, h), i);
  }

  /** A warning is an average more than epsilon (1 + 1 / rho), and not more than epsilon (1 + rho), above the least. */
  lemma WarnMeaning(c: Config, rho: real, h: seq<real>, m: real, mean: real)
    requires Admissible(c) && rho > 1.0 && c.limits == OfRatio(rho) && h != []
    requires LeastAverage(c.lambda, h, m) && mean == Average(c.lambda, h)
    ensures Shown(c, h) != []
    ensures Status(c.limits, Shown(c, h)) == WARN <==>
      mean - m <= Times(c.epsilon, 1.0 + rho) && Times(rho, mean - m - c.epsilon) > c.epsilon
  {
    WarnCompared(c, h, m);
    WarnDistance(c, rho, mean, m);
  }

  /** All inputs in [0, 1]. */
  ghost predicate Unit(h: seq<real>) {
    forall i :: 0 <= i < |h| ==> 0.0 <= h[i] <= 1.0
  }

  lemma Mix(l: real, a: real, b: real, lo: real, hi: real)
    requires 0.0 <= l <= 1.0 && lo <= a <= hi && lo <= b <= hi
    ensures lo <= Blend(l, a, b) <= hi
  {
    Monotone(1.0 - l, lo, a);
    Monotone(1.0 - l, a, hi);
    Monotone(l, lo, b);
    Monotone(l, b, hi);
    Distributes(lo, 1.0 - l, l);
    Distributes(hi, 1.0 - l, l);
  }

  lemma {:induction false} UnitAverage(l: real, h: seq<real>)
    requires 0.0 < l <= 1.0 && h != [] && Unit(h)
    ensures 0.0 <= Average(l, h) <= 1.0
  {
    if |h| > 1 {
      UnitAverage(l, h[..|h| - 1]);
      Mix(l, Average(l, h[..|h| - 1]), h[|h| - 1], 0.0, 1.0);
    }
  }

  /** How far one more value can lift the average above an earlier one. */
  lemma LiftStep(l: real, a: real, p: real, front: real, x: real)
    requires 0.0 < l <= 1.0 && 0.0 <= a && x <= 1.0 && front - a <= 1.0 - p
    ensures Blend(l, front, x) - a <= 1.0 - Times(1.0 - l, p)
  {
    var b := 1.0 - l;
    Monotone(b, front, a + (1.0 - p));
    Monotone(l, x, 1.0);
    Shrinks(b, a);
    Distributes(b, a, 1.0 - p);
    Distributes(b, 1.0 - p, p);
  }

  /** Over inputs in [0, 1] the average rises above an earlier one by at most 1 - (1 - lambda)^(samples between). */
  lemma {:induction false} LiftBound(l: real, h: seq<real>, k: nat)
    requires 0.0 < l <= 1.0 && Unit(h) && 0 < k <= |h|
    ensures Average(l, h) - Average(l, h[..k]) <= 1.0 - Power(1.0 - l, |h| - k)
  {
    if k == |h| {
      assert h[..k] == h;
    } else {
      var front := h[..|h| - 1];
      assert front[..k] == h[..k];
      LiftBound(l, front, k);
      UnitAverage(l, h[..k]);
      LiftStep(l, Average(l, h[..k]), Power(1.0 - l, |front| - k), Average(l, front), h[|h| - 1]);
    }
  }

  /** Enough samples have been seen for a drift: 1 - (1 - lambda)^(n - 1) > epsilon * (1 + rho). */
  ghost predicate CanDrift(c: Config, n: nat) {
    n > 0 && 1.0 - Power(1.0 - c.lambda, n - 1) > Margin(c)
  }

  ghost predicate Drifts(c: Config, h: seq<real>)
    requires Admissible(c)
  {
    Unit(h) && Shown(c, h) != [] && Status(c.limits, Shown(c, h)) == DRIFT
  }

  lemma DriftNeedsTime(c: Config, h: seq<real>)
    requires Admissible(c) && Drifts(c, h)
    ensures CanDrift(c, |h|)
  {
    BestIsLeast(c, h);
    var m := Run(c.limits, Shown(c, h)).best.mean;
    DriftMeaning(c, h, m);
    var k :| 0 < k <= |h| && Average(c.lambda, h[..k]) == m;
    LiftBound(c.lambda, h, k);
    PowerShrinks(1.0 - c.lambda, |h| - k, |h| - 1);
  }

  /** One 0 and then 1s: the steepest run. */
  function Jump(n: nat): (h: seq<real>)
    requires n > 0
    ensures |h| == n
  {
    if n == 1 then [0.0] else Jump(n - 1) + [1.0]
  }

  lemma {:induction false} JumpUnit(n: nat)
    requires n > 0
    ensures Unit(Jump(n)) && Jump(n)[0] == 0.0
  {
    if n > 1 { JumpUnit(n - 1); }
  }

  lemma {:induction false} JumpAverage(l: real, n: nat)
    requires n > 0
    ensures Average(l, Jump(n)) == 1.0 - Power(1.0 - l, n - 1)
  {
    if n > 1 {
      JumpAverage(l, n - 1);
      assert Jump(n)[..n - 1] == Jump(n - 1);
      Complement(l, Power(1.0 - l, n - 2));
    }
  }

  lemma Complement(l: real, p: real)
    ensures Blend(l, 1.0 - p, 1.0) == 1.0 - Times(1.0 - l, p)
  {
  }

  lemma JumpLeast(l: real, n: nat)
    requires 0.0 < l <= 1.0 && n > 0
    ensures LeastAverage(l, Jump(n), 0.0)
  {
    JumpUnit(n);
    forall k | 0 < k <= n ensures 0.0 <= Average(l, Jump(n)[..k]) {
      UnitAverage(l, Jump(n)[..k]);
    }
    assert Jump(n)[..1] == [0.0];
    assert Average(l, Jump(n)[..1]) == 0.0;
  }

  /** A drift at the n-th sample is possible, for inputs in [0, 1], exactly when 1 - (1-lambda)^(n-1) > eps(1+rho). */
  lemma DriftPossibleExactly(c: Config, n: nat)
    requires Admissible(c)
    ensures (exists h :: |h| == n && Drifts(c, h)) <==> CanDrift(c, n)
  {
    if CanDrift(c, n) {
      var h := Jump(n);
      JumpLeast(c.lambda, n);
      JumpUnit(n);
      JumpAverage(c.lambda, n);
      DriftMeaning(c, h, 0.0);
      assert Drifts(c, h);
    }
    forall h | |h| == n && Drifts(c, h) ensures CanDrift(c, n) {
      DriftNeedsTime(c, h);
    }
  }

  lemma Unreachable(c: Config, h: seq<real>)
    requires Admissible(c) && Margin(c) >= 1.0
    ensures !Drifts(c, h)
  {
    if Drifts(c, h) {
      DriftNeedsTime(c, h);
      MarginBelowOne(c, |h|);
    }
  }

  lemma MarginBelowOne(c: Config, n: nat)
    requires Admissible(c) && CanDrift(c, n)
    ensures Margin(c) < 1.0
  {
    PowerShrinks(1.0 - c.lambda, 0, n - 1);
  }

  lemma Reachable(c: Config) returns (h: seq<real>)
    requires Admissible(c) && Margin(c) < 1.0
    ensures Drifts(c, h)
  {
    var n := PowerVanishes(c.lambda, 1.0 - Margin(c));
    assert CanDrift(c, n + 1);
    DriftPossibleExactly(c, n + 1);
    h :| |h| == n + 1 && Drifts(c, h);
  }

  /** No run of inputs in [0, 1] ever drifts, exactly when epsilon * (1 + rho) >= 1. */
  lemma DriftUnreachableExactly(c: Config)
    requires Admissible(c)
    ensures (forall h :: !Drifts(c, h)) <==> Margin(c) >= 1.0
  {
    if Margin(c) >= 1.0 {
      forall h ensures !Drifts(c, h) {
        Unreachable(c, h);
      }
    } else {
      var h := Reachable(c);
    }
  }
}
