/** The per-feature operator over the EWMA detector. */
module FeatureHddm {
  import opened Results
  import opened DriftEvents
  import opened RealArith
  import opened EwmaModel
  import opened HddmW
  import opened SortedLists
  import opened Calibration
  import E = EpochRuns
  import F = FeatureHddmModel

  /** The scale of the collected deviations: their largest, or their 99th percentile. */
  method EstimateScale(useP99: bool, devs: seq<real>) returns (s: real)
    ensures s == ScaleEstimate(useP99, devs)
  {
    if devs == [] { return 0.0; }
    if !useP99 {
      s := 0.0;
      for i := 0 to |devs|
        invariant s == Largest(devs[..i])
      {
        assert devs[..i + 1][..i] == devs[..i];
        if devs[i] > s { s := devs[i]; }
      }
      assert devs[..|devs|] == devs;
      return;
    }
    SortedLength(devs);
    var vals := SortedCopy(devs);
    var rank := Ceil99(|vals|);
    if rank < 1 { rank := 1; }
    if rank > |vals| { rank := |vals|; }
    return vals[rank - 1];
  }

  /** One more value is one more signal, the last one. */
  lemma NextSignals(c: F.Params, h: seq<real>, x: real)
    requires F.Able(c) && |h| >= c.warmup
    ensures (h + [x])[..c.warmup] == h[..c.warmup]
    ensures var s := Signal(Calibrated(c.useP99, h[..c.warmup]), x);
      Signals(c.useP99, c.warmup, h + [x]) == Signals(c.useP99, c.warmup, h) + [s] && F.LastSignal(c, h + [x]) == s
    ensures Unit(Signals(c.useP99, c.warmup, h + [x]))
  {
    assert (h + [x])[..c.warmup] == h[..c.warmup];
    SignalsGrow(c.useP99, c.warmup, h, x);
    F.SignalsUnit(c, h + [x]);
  }

  /** Deviation in either direction, as a share of the scale, at most 1. */
  method Normalised(r: Reference, value: real) returns (signal: real)
    requires r.scale > 0.0
    ensures signal == Signal(r, value)
  {
    signal := Magnitude(value - r.mean) / r.scale;
    if signal >= 1.0 { signal := 1.0; }
  }

  method Judged(det: HDDM_W, signal: real) returns (status: DriftStatus)
    requires det.Valid() && Unit(det.history + [signal])
    modifies det
    ensures det.Valid() && det.history == old(det.history) + [signal]
    ensures status == DRIFT <==> Drifts(det.config, det.history)
  {
    status := det.Update(signal);
  }

  /** The values since the restart go from `seen` to `seen'`, and the report of that step, if any, is sent. */
  ghost predicate Moves(c: F.Params, seen: seq<real>, x: E.Sample, seen': seq<real>, featureId: int,
                        sent: seq<FeatureDrift>, sent': seq<FeatureDrift>)
    requires F.Able(c)
  {
    var (next, r) := E.Receive(F.RuleOf(c), seen, x);
    && seen' == next
    && sent' == sent + if r.Some? then [FeatureDrift(featureId, r.value.onset, r.value.signal)] else []
  }

  /** A step without a drift, warm-up included. */
  lemma Quiet(c: F.Params, seen: seq<real>, x: E.Sample, featureId: int, sent: seq<FeatureDrift>)
    requires F.Able(c) && !F.DriftsOn(c, seen + [x.value])
    ensures Moves(c, seen, x, seen + [x.value], featureId, sent, sent)
  {
  }

  /** A step with a drift. */
  lemma Reported(c: F.Params, seen: seq<real>, x: E.Sample, featureId: int, sent: seq<FeatureDrift>)
    requires F.Able(c) && F.DriftsOn(c, seen + [x.value])
    ensures Moves(c, seen, x, [], featureId, sent,
              sent + [FeatureDrift(featureId, x.pos, F.LastSignal(c, seen + [x.value]))])
  {
  }

  class PerFeatureHDDMFunction {
    const c: F.Params

    var hddm: HDDM_W?
    var count: nat
    var refMean: Option<real>
    var scale: Option<real>
    var warmSum: Option<real>
    var warmDevs: seq<real>
    var out: seq<FeatureDrift>

    /** The values since the last restart. */
    ghost var seen: seq<real>

    ghost predicate WarmingUp()
      reads this
    {
      && hddm == null && refMean.None? && scale.None?
      && warmSum.GetOr(0.0) == Sum(seen) && warmDevs == Deviations(seen)
    }

    /** What the test has been shown: the signals after the warm-up. */
    ghost function Fed(): seq<real>
      reads this, hddm
    {
      if hddm == null then [] else hddm.history
    }

    /** The reference frozen at the end of the warm-up. */
    ghost predicate Frozen()
      requires 0 < c.warmup <= |seen|
      reads `refMean, `scale, `warmDevs, `seen
    {
      var r := Calibrated(c.useP99, seen[..c.warmup]);
      refMean == Some(r.mean) && scale == Some(r.scale) && warmDevs == []
    }

    ghost predicate Detecting()
      requires 0 < c.warmup <= |seen|
      reads this, hddm
    {
      && Frozen()
      && (hddm != null ==> hddm.Valid() && hddm.config == c.test)
      && Fed() == Signals(c.useP99, c.warmup, seen)
    }

    ghost predicate Valid()
      reads this, hddm
    {
      F.Able(c) && count == |seen| && if |seen| < c.warmup then WarmingUp() else Detecting()
    }

    constructor (c: F.Params)
      requires F.Able(c)
      ensures Valid() && seen == [] && out == [] && this.c == c
    {
      this.c := c;
      hddm, count, refMean, scale, warmSum, warmDevs := null, 0, None, None, None, [];
      seen, out := [], [];
    }

    /** A warm-up value is only collected. */
    method Collect(value: real)
      requires WarmingUp() && count == |seen|
      modifies `warmSum, `warmDevs, `count, `seen
      ensures WarmingUp() && count == |seen| && seen == old(seen) + [value]
    {
      ghost var h := seen + [value];
      assert h[..|h| - 1] == seen;
      var ws := warmSum.GetOr(0.0) + value;
      var newCount := count + 1;
      var runMean := Mean(ws, newCount);
      warmSum := Some(ws);
      warmDevs := warmDevs + [Magnitude(value - runMean)];
      count := newCount;
      seen := h;
    }

    /** The end of the warm-up fixes the reference. */
    method Freeze()
      requires F.Able(c) && WarmingUp() && count == |seen| == c.warmup
      modifies `refMean, `scale, `warmDevs
      ensures Valid()
    {
      assert seen[..c.warmup] == seen;
      refMean := Some(Mean(warmSum.GetOr(0.0), c.warmup));
      var s := EstimateScale(c.useP99, warmDevs);
      scale := Some(if s > EPS then s else EPS);
      warmDevs := [];
    }

    method WarmUp(value: real)
      requires Valid() && count < c.warmup
      modifies `refMean, `scale, `warmSum, `warmDevs, `count, `seen
      ensures Valid() && seen == old(seen) + [value]
    {
      Collect(value);
      if count == c.warmup {
        Freeze();
      }
    }

    method Detector() returns (det: HDDM_W)
      requires Valid()
      ensures det.Valid() && det.config == c.test && det.history == Fed()
      ensures if hddm == null then fresh(det) else det == hddm
    {
      if hddm == null {
        det := new HDDM_W(c.test);
      } else {
        det := hddm;
      }
    }

    /** The signal of a value goes into the test. */
    method Show(value: real) returns (det: HDDM_W, signal: real, status: DriftStatus)
      requires Valid() && count >= c.warmup
      modifies hddm
      ensures det.Valid() && det.config == c.test
      ensures det.history == Signals(c.useP99, c.warmup, seen + [value])
      ensures signal == F.LastSignal(c, seen + [value])
      ensures status == DRIFT <==> Drifts(c.test, det.history)
      ensures if hddm == null then fresh(det) else det == hddm
    {
      NextSignals(c, seen, value);
      det := Detector();
      signal := Normalised(Reference(refMean.value, scale.value), value);
      status := Judged(det, signal);
    }

    /** The state holds the test and counts the value. */
    method Hold(det: HDDM_W, ghost value: real)
      requires F.Able(c) && count == |seen| >= c.warmup && Frozen()
      requires det.Valid() && det.config == c.test && det.history == Signals(c.useP99, c.warmup, seen + [value])
      modifies `hddm, `seen, `count
      ensures Valid() && seen == old(seen) + [value]
    {
      assert (seen + [value])[..c.warmup] == seen[..c.warmup];
      hddm, seen, count := det, seen + [value], count + 1;
    }

    /** A value after the warm-up: its signal goes into the test, which the state then holds. */
    method Detect(value: real) returns (signal: real, status: DriftStatus)
      requires Valid() && count >= c.warmup
      modifies `hddm, `seen, `count, hddm
      ensures Valid() && seen == old(seen) + [value]
      ensures |seen| > c.warmup && signal == F.LastSignal(c, seen)
      ensures status == DRIFT <==> F.DriftsOn(c, seen)
    {
      var det, last, answer := Show(value);
      Hold(det, value);
      return last, answer;
    }

    /** A drift clears everything; the reference is estimated anew. */
    method Restart()
      requires Valid() && count >= c.warmup
      modifies `refMean, `scale, `warmSum, `count, `hddm, `seen
      ensures Valid() && seen == []
    {
      refMean, scale, warmSum, count, hddm := None, None, None, 0, null;
      seen := [];
    }

    /** A drift is reported and starts everything over. */
    method Conclude(featureId: int, pos: int, signal: real, status: DriftStatus, ghost before: seq<real>,
                    ghost value: real)
      requires Valid() && seen == before + [value] && |seen| > c.warmup
      requires signal == F.LastSignal(c, seen) && (status == DRIFT <==> F.DriftsOn(c, seen))
      modifies `refMean, `scale, `warmSum, `count, `hddm, `seen, `out
      ensures Valid()
      ensures Moves(c, before, E.Sample(pos, value), seen, featureId, old(out), out)
    {
      if status == DRIFT {
        Reported(c, before, E.Sample(pos, value), featureId, out);
        out := out + [FeatureDrift(featureId, pos, signal)];
        Restart();
      } else {
        Quiet(c, before, E.Sample(pos, value), featureId, out);
      }
    }

    /** A sample after the warm-up. */
    method DetectAndReport(featureId: int, value: real, pos: int)
      requires Valid() && count >= c.warmup
      modifies this, hddm
      ensures Valid()
      ensures Moves(c, old(seen), E.Sample(pos, value), seen, featureId, old(out), out)
    {
      ghost var before := seen;
      var signal, status := Detect(value);
      Conclude(featureId, pos, signal, status, before, value);
    }

    /** One sample of the feature. */
    method ProcessElement(featureId: int, value: real, pos: int)
      requires Valid()
      modifies this, hddm
      ensures Valid()
      ensures Moves(c, old(seen), E.Sample(pos, value), seen, featureId, old(out), out)
    {
      if count < c.warmup {
        Quiet(c, seen, E.Sample(pos, value), featureId, out);
        WarmUp(value);
      } else {
        DetectAndReport(featureId, value, pos);
      }
    }
  }
}
