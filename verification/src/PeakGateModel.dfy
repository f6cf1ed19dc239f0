/** The peak-KS confirmation gate of one feature: a step function, and what it guarantees over every run. */
module PeakGateModel {

  import opened Results

  datatype Params = Params(windowSize: nat, threshold: real, confirmWin: int, ksConfirm: real)

  /** `count`: samples the detector has seen since it was last re-based. */
  datatype Gate = Gate(confirming: bool, startSeq: Option<int>, peakKs: Option<real>, count: nat)

  const IDLE := Gate(false, None, None, 0)

  /** A sample's position, and the statistic the detector shows after it. */
  datatype Sample = Sample(pos: int, ks: real)

  datatype Report = Report(onset: int, ks: real)

  /** What is recorded of a statistic that is not read before the detector is warm. */
  function Shows(r: Option<real>): real {
    if r.Some? then r.value else 0.0
  }

  function Receive(c: Params, g: Gate, x: Sample): (Gate, Option<Report>) {
    var g1 := g.(count := g.count + 1);
    if g1.count < c.windowSize then (g1, None)
    else if !g.confirming then
      (if x.ks > c.threshold then g1.(confirming := true, startSeq := Some(x.pos), peakKs := Some(x.ks)) else g1, None)
    else
      var pk := if g.peakKs.None? || x.ks > g.peakKs.value then x.ks else g.peakKs.value;
      if g.startSeq.Some? && x.pos - g.startSeq.value >= c.confirmWin then
        if pk >= c.ksConfirm then (IDLE, Some(Report(g.startSeq.value, pk)))
        else (Gate(false, None, None, g1.count), None)
      else (g1.(peakKs := Some(pk)), None)
  }

  function Run(c: Params, h: seq<Sample>): (Gate, seq<Report>) {
    if h == [] then (IDLE, [])
    else
      var (g, out) := Run(c, h[..|h| - 1]);
      var (g', r) := Receive(c, g, h[|h| - 1]);
      (g', if r.Some? then out + [r.value] else out)
  }

  ghost predicate Increasing(h: seq<Sample>) {
    forall i, j :: 0 <= i < j < |h| ==> h[i].pos < h[j].pos
  }

  /** The largest statistic of the samples h[a..b]. */
  ghost predicate IsPeak(h: seq<Sample>, a: nat, b: nat, ks: real) {
    && a < b <= |h|
    && (exists i :: a <= i < b && h[i].ks == ks)
    && forall i :: a <= i < b ==> h[i].ks <= ks
  }

  /** The run of samples h[a..b] confirms the report. */
  ghost predicate Confirms(c: Params, h: seq<Sample>, a: nat, b: nat, r: Report) {
    && IsPeak(h, a, b, r.ks) && h[a].pos == r.onset && h[a].ks > c.threshold
    && r.ks >= c.ksConfirm && h[b - 1].pos - r.onset >= c.confirmWin
  }

  ghost predicate Justified(c: Params, h: seq<Sample>, r: Report) {
    exists a, b :: Confirms(c, h, a, b, r)
  }

  /** While confirming: the detector is warm, and the peak is the largest statistic since the start. */
  ghost predicate Confirming(c: Params, g: Gate, h: seq<Sample>) {
    && (g.confirming <==> g.startSeq.Some?) && (g.confirming <==> g.peakKs.Some?)
    && (g.confirming ==>
          && g.count >= c.windowSize
          && exists a :: 0 <= a < |h| && h[a].pos == g.startSeq.value && h[a].ks > c.threshold
                         && IsPeak(h, a, |h|, g.peakKs.value))
  }

  /** How far the run has moved on since the last reported onset. */
  ghost predicate MovedOn(c: Params, g: Gate, h: seq<Sample>, out: seq<Report>) {
    out != [] ==>
      && h != [] && h[|h| - 1].pos >= out[|out| - 1].onset + c.confirmWin + g.count
      && (g.confirming && g.startSeq.Some? ==>
            g.startSeq.value >= out[|out| - 1].onset + c.confirmWin + c.windowSize)
  }

  ghost predicate SpacedReports(c: Params, out: seq<Report>) {
    forall i :: 0 <= i < |out| - 1 ==> out[i + 1].onset >= out[i].onset + c.confirmWin + c.windowSize
  }

  lemma ExtendPeak(h: seq<Sample>, a: nat, ks: real, x: Sample)
    requires IsPeak(h, a, |h|, ks)
    ensures IsPeak(h + [x], a, |h| + 1, if x.ks > ks then x.ks else ks)
  {
    var i :| a <= i < |h| && h[i].ks == ks;
    assert (h + [x])[i].ks == ks && (h + [x])[|h|] == x;
  }

  lemma JustifiedLonger(c: Params, h: seq<Sample>, x: Sample, r: Report)
    requires Justified(c, h, r)
    ensures Justified(c, h + [x], r)
  {
    var a, b :| Confirms(c, h, a, b, r);
    var i :| a <= i < b && h[i].ks == r.ks;
    assert (h + [x])[i] == h[i];
    assert Confirms(c, h + [x], a, b, r);
  }

  lemma ConfirmingNext(c: Params, g: Gate, h: seq<Sample>, x: Sample)
    requires Confirming(c, g, h)
    ensures var (g', r) := Receive(c, g, x);
      Confirming(c, g', h + [x]) && (r.Some? ==> Justified(c, h + [x], r.value))
  {
    var (g', r) := Receive(c, g, x);
    var h' := h + [x];
    assert h'[|h|] == x;
    if g.confirming {
      var a :| 0 <= a < |h| && h[a].pos == g.startSeq.value && h[a].ks > c.threshold
               && IsPeak(h, a, |h|, g.peakKs.value);
      ExtendPeak(h, a, g.peakKs.value, x);
      assert h'[a] == h[a];
      if r.Some? { assert Confirms(c, h', a, |h'|, r.value); }
    } else if g'.confirming {
      assert IsPeak(h', |h|, |h'|, x.ks);
    }
  }

  lemma SpacingNext(c: Params, g: Gate, h: seq<Sample>, out: seq<Report>, x: Sample)
    requires Confirming(c, g, h) && MovedOn(c, g, h, out) && SpacedReports(c, out)
    requires Increasing(h + [x])
    ensures var (g', r) := Receive(c, g, x); var out' := if r.Some? then out + [r.value] else out;
      MovedOn(c, g', h + [x], out') && SpacedReports(c, out')
  {
    assert (h + [x])[|h|] == x;
    assert h != [] ==> (h + [x])[|h| - 1].pos < (h + [x])[|h|].pos;
  }

  ghost predicate GateOk(c: Params, h: seq<Sample>, g: Gate, out: seq<Report>) {
    && Confirming(c, g, h) && (forall i :: 0 <= i < |out| ==> Justified(c, h, out[i]))
    && (Increasing(h) ==> MovedOn(c, g, h, out) && SpacedReports(c, out))
  }

  lemma GateNext(c: Params, g: Gate, h: seq<Sample>, out: seq<Report>, x: Sample)
    requires GateOk(c, h, g, out)
    ensures var (g', r) := Receive(c, g, x); GateOk(c, h + [x], g', if r.Some? then out + [r.value] else out)
  {
    ConfirmingNext(c, g, h, x);
    if Increasing(h + [x]) {
      assert forall i :: 0 <= i < |h| ==> (h + [x])[i] == h[i];
      SpacingNext(c, g, h, out, x);
    }
    forall i | 0 <= i < |out| ensures Justified(c, h + [x], out[i]) {
      JustifiedLonger(c, h, x, out[i]);
    }
  }

  /**
    Over every run: confirming means a warm detector with start and peak set; every report names the position where
    the statistic passed the threshold and the largest statistic from there to its confirmation at least confirmWin
    later; and, positions strictly increasing, reported onsets are at least confirmWin + windowSize apart.
   */
  lemma {:induction false} GateOverRuns(c: Params, h: seq<Sample>)
    ensures GateOk(c, h, Run(c, h).0, Run(c, h).1)
  {
    if h != [] {
      var front, x := h[..|h| - 1], h[|h| - 1];
      assert h == front + [x];
      GateOverRuns(c, front);
      GateNext(c, Run(c, front).0, front, Run(c, front).1, x);
    }
  }

  // ---------- exactly which confirmations a run goes through ----------

  /** One confirmation: the samples that opened and ended it, and the largest statistic from the one to the other. */
  datatype Confirmation = Confirmation(open: nat, close: nat, peak: real)

  /** `a` is the first sample from `from` on above the threshold. */
  ghost predicate Opens(c: Params, h: seq<Sample>, from: nat, a: nat) {
    && from <= a < |h| && h[a].ks > c.threshold
    && forall j :: from <= j < a ==> h[j].ks <= c.threshold
  }

  /** `b` is the first sample after `a` at least confirmWin later. */
  ghost predicate Closes(c: Params, h: seq<Sample>, a: nat, b: nat) {
    && a < b < |h| && h[b].pos - h[a].pos >= c.confirmWin
    && forall j :: a < j < b ==> h[j].pos - h[a].pos < c.confirmWin
  }

  /** A peak that is high enough is reported. */
  predicate Reported(c: Params, x: Confirmation) {
    x.peak >= c.ksConfirm
  }

  /** Where the gate watches again: once the detector is warm, at first, after a report, or right after a discard. */
  function WatchFrom(c: Params, cs: seq<Confirmation>): nat
    requires c.windowSize > 0
  {
    if cs == [] then c.windowSize - 1
    else
      var last := cs[|cs| - 1];
      if Reported(c, last) then last.close + c.windowSize else last.close + 1
  }

  ghost predicate Follows(c: Params, h: seq<Sample>, from: nat, x: Confirmation) {
    Opens(c, h, from, x.open) && Closes(c, h, x.open, x.close) && IsPeak(h, x.open, x.close + 1, x.peak)
  }

  /** The i-th confirmation is the next one possible after those before it. */
  ghost predicate Link(c: Params, h: seq<Sample>, cs: seq<Confirmation>, i: nat)
    requires c.windowSize > 0 && i < |cs|
  {
    Follows(c, h, WatchFrom(c, cs[..i]), cs[i])
  }

  ghost predicate Chain(c: Params, h: seq<Sample>, cs: seq<Confirmation>)
    requires c.windowSize > 0
  {
    forall i :: 0 <= i < |cs| ==> Link(c, h, cs, i)
  }

  /** The gate has been watching since `from` and no sample was above the threshold. */
  ghost predicate Quiet(c: Params, h: seq<Sample>, from: nat) {
    forall j :: from <= j < |h| ==> h[j].ks <= c.threshold
  }

  /** A confirmation opened at `a` is still going on. */
  ghost predicate Ongoing(c: Params, h: seq<Sample>, from: nat, a: nat) {
    Opens(c, h, from, a) && forall j :: a < j < |h| ==> h[j].pos - h[a].pos < c.confirmWin
  }

  /** The confirmations are all of the run. */
  ghost predicate Timeline(c: Params, h: seq<Sample>, cs: seq<Confirmation>)
    requires c.windowSize > 0
  {
    Chain(c, h, cs) && (Quiet(c, h, WatchFrom(c, cs)) || exists a :: Ongoing(c, h, WatchFrom(c, cs), a))
  }

  /** The reports of those confirmations whose peak is high enough. */
  function ReportsOf(c: Params, h: seq<Sample>, cs: seq<Confirmation>): seq<Report>
    requires forall i :: 0 <= i < |cs| ==> cs[i].open < |h|
  {
    if cs == [] then []
    else
      var last := cs[|cs| - 1];
      ReportsOf(c, h, cs[..|cs| - 1]) + if Reported(c, last) then [Report(h[last.open].pos, last.peak)] else []
  }

  /** The gate remembers where the confirmation opened and the largest statistic since. */
  ghost predicate Underway(c: Params, h: seq<Sample>, g: Gate, from: nat, a: nat)
    requires g.peakKs.Some?
  {
    Ongoing(c, h, from, a) && g.startSeq == Some(h[a].pos) && IsPeak(h, a, |h|, g.peakKs.value)
  }

  /** The gate's state after the confirmations, the detector having been re-based after `base` samples. */
  ghost predicate Stands(c: Params, h: seq<Sample>, g: Gate, cs: seq<Confirmation>, base: nat)
    requires c.windowSize > 0
  {
    var from := WatchFrom(c, cs);
    && Chain(c, h, cs)
    && base <= |h| && g.count == |h| - base
    && (|h| >= from <==> g.count + 1 >= c.windowSize)
    && (from > |h| ==> from == base + c.windowSize - 1)
    && (g.confirming <==> g.startSeq.Some?) && (g.confirming <==> g.peakKs.Some?)
    && (if g.confirming then exists a :: Underway(c, h, g, from, a) else Quiet(c, h, from))
  }

  lemma PeakLonger(h: seq<Sample>, a: nat, b: nat, ks: real, x: Sample)
    requires IsPeak(h, a, b, ks)
    ensures IsPeak(h + [x], a, b, ks)
  {
    var i :| a <= i < b && h[i].ks == ks;
    assert (h + [x])[i].ks == ks;
  }

  lemma ChainLonger(c: Params, h: seq<Sample>, cs: seq<Confirmation>, x: Sample)
    requires c.windowSize > 0 && Chain(c, h, cs)
    ensures Chain(c, h + [x], cs)
  {
    var h' := h + [x];
    forall i | 0 <= i < |cs| ensures Link(c, h', cs, i) {
      assert Link(c, h, cs, i);
      assert forall j :: 0 <= j < |h| ==> h'[j] == h[j];
      PeakLonger(h, cs[i].open, cs[i].close + 1, cs[i].peak, x);
    }
  }

  lemma {:induction false} ReportsLonger(c: Params, h: seq<Sample>, cs: seq<Confirmation>, x: Sample)
    requires forall i :: 0 <= i < |cs| ==> cs[i].open < |h|
    ensures ReportsOf(c, h + [x], cs) == ReportsOf(c, h, cs)
  {
    if cs != [] { ReportsLonger(c, h, cs[..|cs| - 1], x); }
  }

  lemma ChainMore(c: Params, h: seq<Sample>, cs: seq<Confirmation>, x: Confirmation)
    requires c.windowSize > 0 && Chain(c, h, cs) && Follows(c, h, WatchFrom(c, cs), x)
    ensures Chain(c, h, cs + [x])
  {
    var cs' := cs + [x];
    forall i | 0 <= i < |cs'| ensures Link(c, h, cs', i) {
      if i < |cs| {
        assert Link(c, h, cs, i) && cs'[..i] == cs[..i];
      } else {
        assert cs'[..i] == cs;
      }
    }
  }

  /** Not confirming: the next sample is quiet, or opens a confirmation. */
  lemma WatchingNext(c: Params, h: seq<Sample>, g: Gate, cs: seq<Confirmation>, base: nat, x: Sample)
    requires c.windowSize > 0 && Stands(c, h, g, cs, base) && !g.confirming
    ensures Receive(c, g, x).1.None? && Stands(c, h + [x], Receive(c, g, x).0, cs, base)
  {
    var h', g' := h + [x], Receive(c, g, x).0;
    ChainLonger(c, h, cs, x);
    if g'.confirming {
      assert Underway(c, h', g', WatchFrom(c, cs), |h|);
    }
  }

  /** Confirming: the peak follows the statistic, until the first sample at least confirmWin after the opening. */
  lemma PeakNext(c: Params, h: seq<Sample>, from: nat, a: nat, peak: real, x: Sample)
    requires Ongoing(c, h, from, a) && IsPeak(h, a, |h|, peak)
    ensures var h', peak' := h + [x], if x.ks > peak then x.ks else peak;
      && IsPeak(h', a, |h'|, peak') && Opens(c, h', from, a) && h'[a] == h[a]
      && (x.pos - h[a].pos < c.confirmWin ==> Ongoing(c, h', from, a))
      && (x.pos - h[a].pos >= c.confirmWin ==> Follows(c, h', from, Confirmation(a, |h|, peak')))
  {
    ExtendPeak(h, a, peak, x);
  }

  /** The confirmation goes on. */
  lemma StillConfirming(c: Params, h: seq<Sample>, g: Gate, cs: seq<Confirmation>, base: nat, x: Sample, a: nat)
    requires c.windowSize > 0 && Stands(c, h, g, cs, base) && g.confirming && Underway(c, h, g, WatchFrom(c, cs), a)
    requires x.pos - h[a].pos < c.confirmWin
    ensures Receive(c, g, x).1.None? && Stands(c, h + [x], Receive(c, g, x).0, cs, base)
  {
    PeakNext(c, h, WatchFrom(c, cs), a, g.peakKs.value, x);
    ChainLonger(c, h, cs, x);
    assert Underway(c, h + [x], Receive(c, g, x).0, WatchFrom(c, cs), a);
  }

  /** The gate after a confirmation has ended. */
  lemma Afterwards(c: Params, h: seq<Sample>, g: Gate, cs: seq<Confirmation>, base: nat, done: Confirmation)
    requires c.windowSize > 0 && Chain(c, h, cs + [done]) && done.close == |h| - 1
    requires !g.confirming && g.startSeq.None? && g.peakKs.None?
    requires base <= |h| && g.count == |h| - base
    requires if Reported(c, done) then base == |h| else g.count >= c.windowSize
    ensures Stands(c, h, g, cs + [done], base)
  {
    assert (cs + [done])[|cs|] == done;
  }

  /** The confirmation ends: its peak is reported, or discarded. */
  lemma Concluded(c: Params, h: seq<Sample>, g: Gate, cs: seq<Confirmation>, base: nat, x: Sample, a: nat)
    returns (done: Confirmation, base': nat)
    requires c.windowSize > 0 && Stands(c, h, g, cs, base) && g.confirming && Underway(c, h, g, WatchFrom(c, cs), a)
    requires x.pos - h[a].pos >= c.confirmWin
    ensures done.open == a && Stands(c, h + [x], Receive(c, g, x).0, cs + [done], base')
    ensures Receive(c, g, x).1 == if Reported(c, done) then Some(Report(h[a].pos, done.peak)) else None
  {
    done := Confirmation(a, |h|, if x.ks > g.peakKs.value then x.ks else g.peakKs.value);
    base' := if Reported(c, done) then |h| + 1 else base;
    PeakNext(c, h, WatchFrom(c, cs), a, g.peakKs.value, x);
    ChainLonger(c, h, cs, x);
    ChainMore(c, h + [x], cs, done);
    Afterwards(c, h + [x], Receive(c, g, x).0, cs, base', done);
  }

  ghost predicate Inside(h: seq<Sample>, cs: seq<Confirmation>) {
    forall i :: 0 <= i < |cs| ==> cs[i].open < |h|
  }

  lemma ReportsMore(c: Params, h: seq<Sample>, cs: seq<Confirmation>, done: Confirmation)
    requires Inside(h, cs) && done.open < |h|
    ensures ReportsOf(c, h, cs + [done])
            == ReportsOf(c, h, cs) + if Reported(c, done) then [Report(h[done.open].pos, done.peak)] else []
  {
    assert (cs + [done])[..|cs|] == cs;
  }

  /** One sample: the same chain, or one more confirmation. */
  lemma GateStep(c: Params, h: seq<Sample>, g: Gate, cs: seq<Confirmation>, base: nat, x: Sample)
    returns (cs': seq<Confirmation>, base': nat)
    requires c.windowSize > 0 && Stands(c, h, g, cs, base) && Inside(h, cs)
    ensures Stands(c, h + [x], Receive(c, g, x).0, cs', base') && Inside(h + [x], cs')
    ensures ReportsOf(c, h + [x], cs')
            == ReportsOf(c, h, cs) + if Receive(c, g, x).1.Some? then [Receive(c, g, x).1.value] else []
  {
    ReportsLonger(c, h, cs, x);
    cs', base' := cs, base;
    if !g.confirming {
      WatchingNext(c, h, g, cs, base, x);
    } else {
      var a: nat :| Underway(c, h, g, WatchFrom(c, cs), a);
      if x.pos - h[a].pos < c.confirmWin {
        StillConfirming(c, h, g, cs, base, x, a);
      } else {
        var done;
        done, base' := Concluded(c, h, g, cs, base, x, a);
        cs' := cs + [done];
        assert (h + [x])[a] == h[a];
        ReportsMore(c, h + [x], cs, done);
      }
    }
  }

  /**
    Every run goes through one chain of confirmations: each opens at the first warm sample above the threshold after
    the one before, ends at the first sample at least confirmWin later, and is reported exactly when the largest
    statistic from the opening to that sample is at least ksConfirm.
   */
  lemma {:induction false} ConfirmationsOfARun(c: Params, h: seq<Sample>) returns (cs: seq<Confirmation>, base: nat)
    requires c.windowSize > 0
    ensures Timeline(c, h, cs) && Inside(h, cs) && Run(c, h).1 == ReportsOf(c, h, cs)
    ensures Stands(c, h, Run(c, h).0, cs, base)
  {
    if h == [] {
      cs, base := [], 0;
    } else {
      var front, x := h[..|h| - 1], h[|h| - 1];
      cs, base := ConfirmationsOfARun(c, front);
      cs, base := GateStep(c, front, Run(c, front).0, cs, base, x);
      assert front + [x] == h;
      Standing(c, h, Run(c, h).0, cs, base);
    }
  }

  lemma Standing(c: Params, h: seq<Sample>, g: Gate, cs: seq<Confirmation>, base: nat)
    requires c.windowSize > 0 && Stands(c, h, g, cs, base)
    ensures Timeline(c, h, cs)
  {
    if g.confirming {
      var a: nat :| Underway(c, h, g, WatchFrom(c, cs), a);
    }
  }

  lemma SameNext(c: Params, h: seq<Sample>, from: nat, x: Confirmation, y: Confirmation)
    requires Follows(c, h, from, x) && Follows(c, h, from, y)
    ensures x == y
  {
    var i :| x.open <= i < x.close + 1 && h[i].ks == x.peak;
    var j :| y.open <= j < y.close + 1 && h[j].ks == y.peak;
  }

  lemma NothingAfter(c: Params, h: seq<Sample>, cs: seq<Confirmation>, x: Confirmation)
    requires c.windowSize > 0 && Timeline(c, h, cs)
    ensures !Follows(c, h, WatchFrom(c, cs), x)
  {
  }

  lemma {:induction false} SamePrefix(c: Params, h: seq<Sample>, cs: seq<Confirmation>, ds: seq<Confirmation>, i: nat)
    requires c.windowSize > 0 && Chain(c, h, cs) && Chain(c, h, ds) && i <= |cs| && i <= |ds|
    ensures cs[..i] == ds[..i]
  {
    if i > 0 {
      SamePrefix(c, h, cs, ds, i - 1);
      assert Link(c, h, cs, i - 1) && Link(c, h, ds, i - 1);
      SameNext(c, h, WatchFrom(c, cs[..i - 1]), cs[i - 1], ds[i - 1]);
      assert cs[..i] == cs[..i - 1] + [cs[i - 1]] && ds[..i] == ds[..i - 1] + [ds[i - 1]];
    }
  }

  lemma NoneLeft(c: Params, h: seq<Sample>, cs: seq<Confirmation>, ds: seq<Confirmation>)
    requires c.windowSize > 0 && Timeline(c, h, cs) && Chain(c, h, ds)
    ensures |ds| <= |cs|
  {
    if |ds| > |cs| {
      SamePrefix(c, h, cs, ds, |cs|);
      assert cs[..|cs|] == cs;
      assert Link(c, h, ds, |cs|);
      NothingAfter(c, h, cs, ds[|cs|]);
    }
  }

  /** The samples determine the chain. */
  lemma OneTimeline(c: Params, h: seq<Sample>, cs: seq<Confirmation>, ds: seq<Confirmation>)
    requires c.windowSize > 0 && Timeline(c, h, cs) && Timeline(c, h, ds)
    ensures cs == ds
  {
    NoneLeft(c, h, cs, ds);
    NoneLeft(c, h, ds, cs);
    SamePrefix(c, h, cs, ds, |cs|);
    assert cs[..|cs|] == cs && ds[..|ds|] == ds;
  }
}
