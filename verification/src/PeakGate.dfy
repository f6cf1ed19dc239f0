/** The per-feature detector operator: an incremental KS detector behind the peak-KS confirmation gate. */
module PeakGate {
  import opened TreapHeap
  import opened IncrementalKs
  import opened Results
  import opened DriftEvents
  import G = PeakGateModel

  /** A detector driven by values alone, with the gate's window and threshold. */
  ghost predicate Watching(det: IKS, c: G.Params)
    reads det, det.nodes
  {
    det.Live() && det.windowSize == c.windowSize && det.threshold == c.threshold
  }

  /** Once W values are in, `ks` is a statistic of the last W against the first W. */
  ghost predicate Shown(ks: real, h: seq<real>, w: nat)
    requires w > 0
  {
    |h| >= w ==> IsStatistic(ks, h[|h| - w..], h[..w], w)
  }

  /** One value into the detector. */
  method Feed(det: IKS, value: real, c: G.Params)
    requires Watching(det, c)
    modifies det, det.nodes
    ensures Watching(det, c) && fresh(det.nodes - old(det.nodes)) && det.history == old(det.history) + [value]
  {
    var _ := det.Update(value);
  }

  /** The statistic of a warm detector. */
  method Read(det: IKS, c: G.Params) returns (ks: real)
    requires Watching(det, c) && |det.history| >= c.windowSize
    ensures Shown(ks, det.history, c.windowSize)
  {
    var r := det.Ks();
    ks := r.value;
  }

  /** The statistic is read only after the warm-up. */
  method Observe(det: IKS, value: real, c: G.Params) returns (r: Option<real>)
    requires Watching(det, c)
    modifies det, det.nodes
    ensures Watching(det, c) && fresh(det.nodes - old(det.nodes)) && det.history == old(det.history) + [value]
    ensures r.Some? <==> |det.history| >= c.windowSize
    ensures Shown(G.Shows(r), det.history, c.windowSize)
  {
    Feed(det, value, c);
    if det.n < c.windowSize {
      return None;
    }
    var ks := Read(det, c);
    return Some(ks);
  }

  /** The gate goes from `g` to `g'` on the sample `x`, and the report of that step, if any, is sent. */
  ghost predicate Moves(c: G.Params, g: G.Gate, x: G.Sample, g': G.Gate, featureId: int,
                        sent: seq<FeatureDrift>, sent': seq<FeatureDrift>)
  {
    var (next, r) := G.Receive(c, g, x);
    && g' == next
    && sent' == sent + if r.Some? then [FeatureDrift(featureId, r.value.onset, r.value.ks)] else []
  }

  class PerFeatureIKSFunction {
    const c: G.Params

    var ikssw: IKS?
    var confirming: bool
    var startSeq: Option<int>
    var peakKs: Option<real>
    /** The output collector. */
    var out: seq<FeatureDrift>

    ghost function Nodes(): set<Treap>
      reads this, ikssw
    {
      if ikssw == null then {} else ikssw.nodes
    }

    ghost predicate Valid()
      reads this, ikssw, Nodes()
    {
      && c.windowSize > 0
      && (ikssw != null ==> Watching(ikssw, c))
      && (confirming ==> startSeq.Some? && peakKs.Some?)
    }

    /** Values since the detector was last re-based. */
    ghost function History(): seq<real>
      reads this, ikssw
    {
      if ikssw == null then [] else ikssw.history
    }

    ghost function State(): G.Gate
      reads this, ikssw
    {
      G.Gate(confirming, startSeq, peakKs, |History()|)
    }

    constructor (c: G.Params)
      requires c.windowSize > 0
      ensures Valid() && State() == G.IDLE && out == [] && this.c == c
    {
      this.c := c;
      ikssw, confirming, startSeq, peakKs, out := null, false, None, None, [];
    }

    /** The detector, created when the first value arrives. */
    method Detector()
      requires Valid()
      modifies `ikssw
      ensures Valid() && ikssw != null && ikssw.history == old(History())
      ensures if old(ikssw) == null then fresh(ikssw) && fresh(ikssw.nodes) else ikssw == old(ikssw)
    {
      if ikssw == null {
        var det := new IKS(c.windowSize, c.threshold);
        ikssw := det;
      }
    }

    /** The value goes into the detector, which the state then holds. */
    method Take(value: real) returns (r: Option<real>)
      requires Valid()
      modifies this`ikssw, ikssw, Nodes()
      ensures Valid() && ikssw != null && (if old(ikssw) == null then fresh(ikssw) else ikssw == old(ikssw))
      ensures ikssw.history == old(History()) + [value]
      ensures r.Some? <==> |old(History())| + 1 >= c.windowSize
      ensures Shown(G.Shows(r), old(History()) + [value], c.windowSize)
    {
      Detector();
      r := Observe(ikssw, value, c);
    }

    /** The statistic runs through the gate once the detector is warm; a confirmed onset is reported. */
    method Confirm(featureId: int, pos: int, shown: Option<real>, ghost count: nat) returns (confirmed: bool)
      requires shown.Some? <==> count + 1 >= c.windowSize
      requires Valid()
      modifies `confirming, `startSeq, `peakKs, `out
      ensures Valid()
      ensures Moves(c, G.Gate(old(confirming), old(startSeq), old(peakKs), count), G.Sample(pos, G.Shows(shown)),
                G.Gate(confirming, startSeq, peakKs, if confirmed then 0 else count + 1), featureId, old(out), out)
    {
      confirmed := false;
      if shown.None? { return; }
      var ks := shown.value;
      if !confirming {
        if ks > c.threshold {
          confirming, startSeq, peakKs := true, Some(pos), Some(ks);
        }
        return;
      }
      var pk := peakKs.value;
      if ks > pk { pk := ks; }
      peakKs := Some(pk);
      var s0 := startSeq.value;
      if pos - s0 >= c.confirmWin {
        if pk >= c.ksConfirm {
          out := out + [FeatureDrift(featureId, s0, pk)];
          confirmed := true;
        }
        confirming, startSeq, peakKs := false, None, None;
      }
    }

    /** After a confirmed onset the detector starts over. */
    method Restart(confirmed: bool)
      requires Valid() && ikssw != null
      modifies ikssw
      ensures Valid() && History() == if confirmed then [] else old(History())
    {
      if confirmed {
        ikssw.Rebase();
      }
    }

    /** One sample of the feature: a gate step on the statistic of the last W values against the first W. */
    method ProcessElement(featureId: int, value: real, pos: int) returns (ghost ks: real)
      requires Valid()
      modifies this, ikssw, Nodes()
      ensures Valid()
      ensures Shown(ks, old(History()) + [value], c.windowSize)
      ensures Moves(c, old(State()), G.Sample(pos, ks), State(), featureId, old(out), out)
    {
      ghost var count := |History()|;
      var shown := Take(value);
      ks := G.Shows(shown);
      var confirmed := Confirm(featureId, pos, shown, count);
      Restart(confirmed);
    }
  }
}
