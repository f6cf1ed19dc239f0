/** The cross-feature aggregator operator, with its state updated in place. */
module Aggregator {
  import opened Messages
  import opened Results
  import opened AggregatorModel

  lemma Trimmed(m: map<int, int>, stale: set<int>, lo: int)
    requires forall f :: f in stale <==> f in m && m[f] < lo
    ensures m - stale == map f | f in m && m[f] >= lo :: m[f]
  {
    assert forall f :: f in m - stale <==> f in m && m[f] >= lo;
  }

  class DriftAggregatorFunction {
    const c: Params

    var recentByFeature: map<int, int>
    var roundCounter: Option<int>
    var lastEmitSeq: Option<int>
    /** The output collector. */
    var out: seq<DriftRound>

    ghost function State(): Agg
      reads this
    {
      Agg(recentByFeature, roundCounter, lastEmitSeq)
    }

    constructor (c: Params)
      requires c.k > 0 && c.aggWin > 0 && c.refractory >= 0
      ensures State() == NEW_AGG && out == [] && this.c == c
    {
      this.c := c;
      recentByFeature, roundCounter, lastEmitSeq, out := map[], None, None, [];
    }

    /** Forgets every feature whose latest onset lies before `lo`. */
    method Evict(lo: int)
      modifies this`recentByFeature
      ensures recentByFeature == map f | f in old(recentByFeature) && old(recentByFeature)[f] >= lo
                                       :: old(recentByFeature)[f]
    {
      var stale: set<int>, rest := {}, recentByFeature.Keys;
      while exists f :: f in rest
        invariant rest <= recentByFeature.Keys
        invariant forall f :: f in stale <==> f in recentByFeature && f !in rest && recentByFeature[f] < lo
        decreases |rest|
      {
        var f :| f in rest;
        rest := rest - {f};
        if recentByFeature[f] < lo { stale := stale + {f}; }
      }
      assert forall f :: f !in rest;
      Trimmed(recentByFeature, stale, lo);
      recentByFeature := recentByFeature - stale;
    }

    /** How many features are in the window. */
    method CountFired(lo: int) returns (nFired: nat)
      requires forall f :: f in recentByFeature ==> recentByFeature[f] >= lo
      ensures nFired == |recentByFeature|
    {
      nFired := 0;
      var rest := recentByFeature.Keys;
      assert |recentByFeature| == |rest|;
      while exists f :: f in rest
        invariant rest <= recentByFeature.Keys && nFired + |rest| == |recentByFeature|
        decreases |rest|
      {
        var f :| f in rest;
        rest := rest - {f};
        if recentByFeature[f] >= lo { nFired := nFired + 1; }
      }
    }

    /** One confirmed onset: recorded, window trimmed, and a round committed if enough features agree. */
    method ProcessElement(fd: Onset)
      modifies this
      ensures var (s, d) := Receive(c, old(State()), fd);
        State() == s && out == old(out) + if d.Some? then [d.value] else []
    {
      var now := fd.pos;
      recentByFeature := recentByFeature[fd.featureId := now];
      var lo := now - c.aggWin;
      Evict(lo);
      assert recentByFeature == Window(c, old(recentByFeature), fd);
      if lastEmitSeq.Some? && now - lastEmitSeq.value < c.refractory { return; }
      var nFired := CountFired(lo);
      if nFired >= c.k {
        var nextId := roundCounter.GetOr(0) + 1;
        roundCounter := Some(nextId);
        lastEmitSeq := Some(now);
        out := out + [DriftRound(nextId, COMMITTED, nFired)];
        recentByFeature := map[];
      }
    }
  }
}
