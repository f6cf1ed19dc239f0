/** One feature under the EWMA detector: warm-up, detection on the normalised signal, restart after a drift. */
module FeatureHddmModel {
  import opened RealArith
  import opened EwmaModel
  import opened Calibration
  import opened EpochRuns

  datatype Params = Params(warmup: nat, useP99: bool, test: Config)

  ghost predicate Able(c: Params) {
    c.warmup > 0 && Admissible(c.test)
  }

  /** The signals since the end of the warm-up are judged a drift. */
  ghost predicate DriftsOn(c: Params, values: seq<real>)
    requires Able(c)
  {
    |values| > c.warmup && Drifts(c.test, Signals(c.useP99, c.warmup, values))
  }

  /** The signal of the last value. */
  function LastSignal(c: Params, values: seq<real>): real
    requires 0 < c.warmup < |values|
  {
    Signals(c.useP99, c.warmup, values)[|values| - c.warmup - 1]
  }

  ghost function RuleOf(c: Params): Rule
    requires Able(c)
  {
    Rule(c.warmup, (v: seq<real>) => DriftsOn(c, v), (v: seq<real>) => if |v| > c.warmup then LastSignal(c, v) else 0.0)
  }

  ghost function Enough(c: Params): nat -> bool {
    (n: nat) => CanDrift(c.test, n)
  }

  lemma SignalsUnit(c: Params, h: seq<real>)
    requires Able(c) && |h| >= c.warmup
    ensures Unit(Signals(c.useP99, c.warmup, h))
  {
    var s, r := Signals(c.useP99, c.warmup, h), Calibrated(c.useP99, h[..c.warmup]);
    forall i | 0 <= i < |s| ensures 0.0 <= s[i] <= 1.0 {
      SignalUnit(r, h[c.warmup + i]);
    }
  }

  lemma DriftsTakeTime(c: Params)
    requires Able(c)
    ensures Needs(RuleOf(c), Enough(c))
  {
    forall v: seq<real> | |v| > c.warmup && DriftsOn(c, v) ensures CanDrift(c.test, |v| - c.warmup) {
      DriftTakesTime(c, v);
    }
  }

  lemma DriftTakesTime(c: Params, v: seq<real>)
    requires Able(c) && DriftsOn(c, v)
    ensures CanDrift(c.test, |v| - c.warmup)
  {
    DriftNeedsTime(c.test, Signals(c.useP99, c.warmup, v));
  }

  /**
    Over every run each report follows from the signals since the last restart, and, positions strictly increasing,
    consecutive reports are apart by at least the warm-up plus some number n of samples with
    1 - (1 - lambda)^(n - 1) > epsilon * (1 + rho).
   */
  lemma FeatureOverRuns(c: Params, h: seq<Sample>)
    requires Able(c)
    ensures RunOk(RuleOf(c), Enough(c), h, Run(RuleOf(c), h).0, Run(RuleOf(c), h).1) && Needs(RuleOf(c), Enough(c))
  {
    DriftsTakeTime(c);
    ReportsOverRuns(RuleOf(c), Enough(c), h);
  }

  /** ... and one is made whenever they are judged a drift: at the first such sample since the restart. */
  lemma FeatureReportsExactly(c: Params, h: seq<Sample>) returns (ends: seq<nat>)
    requires Able(c)
    ensures Complete(RuleOf(c), h, ends, Run(RuleOf(c), h).1)
  {
    ends := ReportsExactly(RuleOf(c), h);
  }

  /** The last signal: the distance from the mean of the warm-up, as a share of its scale, and at most 1. */
  lemma LastSignalMeaning(c: Params, values: seq<real>) returns (mean: real, scale: real, e: real)
    requires 0 < c.warmup < |values|
    ensures IsMean(mean, values[..c.warmup])
    ensures IsEstimate(c.useP99, Deviations(values[..c.warmup]), e) && scale == if e > EPS then e else EPS
    ensures var away, s := Magnitude(values[|values| - 1] - mean), LastSignal(c, values);
      if away >= scale then s == 1.0 else s < 1.0 && Times(scale, s) == away
  {
    var r := Calibrated(c.useP99, values[..c.warmup]);
    e := ReferenceMeaning(c.useP99, values[..c.warmup]);
    mean, scale := r.mean, r.scale;
    SignalUnit(r, values[|values| - 1]);
  }

  /** With epsilon * (1 + rho) >= 1 no feature is ever reported. */
  lemma SilentFeature(c: Params, h: seq<Sample>)
    requires Able(c) && Margin(c.test) >= 1.0
    ensures Run(RuleOf(c), h).1 == []
  {
    forall v: seq<real> | |v| > c.warmup ensures !DriftsOn(c, v) {
      Unreachable(c.test, Signals(c.useP99, c.warmup, v));
    }
    Silent(RuleOf(c), h);
  }
}
