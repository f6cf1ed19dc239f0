/**
  The threshold test shared by the three Hoeffding detectors: the best (mean, bound) seen so far, two thresholds
  above it, and the clock of an unbroken warning.
 */
module MeanTest {
  import opened DriftEvents
  import opened RealArith

  /** The mean a detector shows after a sample, with the half-width of its confidence interval. */
  datatype Obs = Obs(mean: real, bound: real)

  datatype Test = Test(n: nat, best: Obs, warnEnteredAt: nat)

  const FRESH := Test(0, Obs(0.0, 0.0), 0)

  function Upper(x: Obs): real {
    x.mean + x.bound
  }

  /** The lower end of `x` is above the best mean by more than `distance`. */
  predicate Above(x: Obs, best: Obs, distance: real) {
    x.mean - x.bound > best.mean + distance
  }

  /** How far above the best mean a drift and a warning begin, given the best bound. */
  datatype Thresholds = Thresholds(drift: real -> real, warn: real -> real)

  /** `rho` is sqrt(ln(1/driftConfidence) / ln(1/warnConfidence)), above 1 as driftConfidence < warnConfidence. */
  function OfRatio(rho: real): Thresholds
    requires rho > 1.0
  {
    Thresholds((b: real) => Times(b, rho), (b: real) => Times(b, 1.0 / rho))
  }

  /** One observation: the test after it, and the answer. */
  function Judge(limits: Thresholds, t: Test, x: Obs): (Test, DriftStatus)
  {
    var n := t.n + 1;
    var best := if n == 1 || Upper(x) < Upper(t.best) then x else t.best;
    if Above(x, best, limits.drift(best.bound)) then (Test(n, best, 0), DRIFT)
    else if Above(x, best, limits.warn(best.bound)) then
      (Test(n, best, if t.warnEnteredAt == 0 then n else t.warnEnteredAt), WARN)
    else (Test(n, best, 0), STABLE)
  }

  /** The part of `update` the three detectors share: `n` counts the present observation. */
  method Decide(limits: Thresholds, n: nat, x: Obs, best: Obs, warnEnteredAt: nat)
    returns (best': Obs, warnEnteredAt': nat, status: DriftStatus)
    requires n > 0
    ensures (Test(n, best', warnEnteredAt'), status) == Judge(limits, Test(n - 1, best, warnEnteredAt), x)
  {
    best', warnEnteredAt' := best, warnEnteredAt;
    if n == 1 || x.mean + x.bound < best.mean + best.bound {
      best' := x;
    }
    var driftBound := limits.drift(best'.bound);
    var warnBound := limits.warn(best'.bound);
    if x.mean - x.bound > best'.mean + driftBound {
      return best', 0, DRIFT;
    }
    if x.mean - x.bound > best'.mean + warnBound {
      if warnEnteredAt' == 0 { warnEnteredAt' := n; }
      return best', warnEnteredAt', WARN;
    }
    return best', 0, STABLE;
  }

  /** The test after a run of observations since the reset. */
  function Run(limits: Thresholds, h: seq<Obs>): Test
  {
    if h == [] then FRESH else Judge(limits, Run(limits, h[..|h| - 1]), h[|h| - 1]).0
  }

  /** The status answered to the last observation of the run. */
  function Status(limits: Thresholds, h: seq<Obs>): DriftStatus
    requires h != []
  {
    Judge(limits, Run(limits, h[..|h| - 1]), h[|h| - 1]).1
  }

  lemma {:induction false} RunCounts(limits: Thresholds, h: seq<Obs>)
    ensures Run(limits, h).n == |h|
  {
    if h != [] { RunCounts(limits, h[..|h| - 1]); }
  }

  /** The first observation of the run with the lowest upper end. */
  ghost predicate Lowest(h: seq<Obs>, i: nat) {
    && i < |h|
    && (forall j :: 0 <= j < i ==> h[j].mean + h[j].bound > h[i].mean + h[i].bound)
    && forall j :: i <= j < |h| ==> h[j].mean + h[j].bound >= h[i].mean + h[i].bound
  }

  lemma BestNext(limits: Thresholds, h: seq<Obs>)
    requires h != []
    ensures var front, x := h[..|h| - 1], h[|h| - 1]; var b := Run(limits, front).best;
      Run(limits, h).best == if front == [] || Upper(x) < Upper(b) then x else b
  {
    var front, x := h[..|h| - 1], h[|h| - 1];
    RunCounts(limits, front);
    Judging(limits, Run(limits, front), x);
  }

  lemma Judging(limits: Thresholds, t: Test, x: Obs)
    ensures Judge(limits, t, x).0.best == if t.n == 0 || Upper(x) < Upper(t.best) then x else t.best
  {
  }

  lemma {:induction false} LowestExists(limits: Thresholds, h: seq<Obs>) returns (i: nat)
    requires h != []
    ensures Lowest(h, i) && Run(limits, h).best == h[i]
  {
    var front, x := h[..|h| - 1], h[|h| - 1];
    BestNext(limits, h);
    if front == [] {
      i := 0;
    } else {
      var j := LowestExists(limits, front);
      assert h == front + [x];
      LowestNext(front, j, x);
      i := if Upper(x) < Upper(front[j]) then |front| else j;
    }
  }

  lemma LowestNext(h: seq<Obs>, i: nat, x: Obs)
    requires Lowest(h, i)
    ensures Lowest(h + [x], if Upper(x) < Upper(h[i]) then |h| else i)
  {
    var h', k := h + [x], if Upper(x) < Upper(h[i]) then |h| else i;
    forall j | 0 <= j < |h'| ensures j < k ==> Upper(h'[j]) > Upper(h'[k])
                             ensures j >= k ==> Upper(h'[j]) >= Upper(h'[k]) {
      if j < |h| { assert h'[j] == h[j]; }
    }
  }

  lemma LowestUnique(h: seq<Obs>, i: nat, j: nat)
    requires Lowest(h, i) && Lowest(h, j)
    ensures i == j
  {
    assert Upper(h[i]) == Upper(h[j]);
  }

  /** The last observation is judged against the first one with the lowest upper end. */
  lemma StatusAbove(limits: Thresholds, h: seq<Obs>, i: nat)
    requires Lowest(h, i)
    ensures Status(limits, h) == DRIFT <==> Above(h[|h| - 1], h[i], limits.drift(h[i].bound))
    ensures Status(limits, h) == WARN <==>
      !Above(h[|h| - 1], h[i], limits.drift(h[i].bound)) && Above(h[|h| - 1], h[i], limits.warn(h[i].bound))
  {
    var j := LowestExists(limits, h);
    LowestUnique(h, i, j);
    Answer(limits, Run(limits, h[..|h| - 1]), h[|h| - 1], h[i]);
  }

  /**
    What a status says about the whole run: the lower end of the last observation against the mean of the first one
    with the lowest upper end, the drift threshold being tested before the warning threshold.
   */
  lemma StatusMeaning(limits: Thresholds, h: seq<Obs>, i: nat)
    requires Lowest(h, i)
    ensures var x, best := h[|h| - 1], h[i];
      && (Status(limits, h) == DRIFT <==> x.mean - x.bound > best.mean + limits.drift(best.bound))
      && (Status(limits, h) == WARN <==>
            x.mean - x.bound <= best.mean + limits.drift(best.bound)
            && x.mean - x.bound > best.mean + limits.warn(best.bound))
  {
    StatusAbove(limits, h, i);
  }

  lemma Answer(limits: Thresholds, t: Test, x: Obs, best: Obs)
    requires Judge(limits, t, x).0.best == best
    ensures Judge(limits, t, x).1 == DRIFT <==> Above(x, best, limits.drift(best.bound))
    ensures Judge(limits, t, x).1 == WARN <==>
      !Above(x, best, limits.drift(best.bound)) && Above(x, best, limits.warn(best.bound))
  {
  }

  /** The answers to a run of observations. */
  function Statuses(limits: Thresholds, h: seq<Obs>): (r: seq<DriftStatus>)
    ensures |r| == |h|
  {
    if h == [] then [] else Statuses(limits, h[..|h| - 1]) + [Status(limits, h)]
  }

  /** The answers from the a-th on, counting from 1, were all WARN. */
  ghost predicate WarnedSince(answers: seq<DriftStatus>, a: nat) {
    forall m :: 0 <= m < |answers| && a <= m + 1 ==> answers[m] == WARN
  }

  /** The clock: 0 unless the last answer was WARN, and otherwise the first sample of the unbroken warning. */
  ghost predicate ClockRight(e: nat, answers: seq<DriftStatus>) {
    && (e != 0 <==> answers != [] && answers[|answers| - 1] == WARN)
    && (e != 0 ==> e <= |answers| && WarnedSince(answers, e) && (e > 1 ==> answers[e - 2] != WARN))
  }

  lemma ClockNext(e: nat, answers: seq<DriftStatus>, s: DriftStatus)
    requires ClockRight(e, answers)
    ensures ClockRight(if s != WARN then 0 else if e == 0 then |answers| + 1 else e, answers + [s])
  {
  }

  lemma {:induction false} WarnClock(limits: Thresholds, h: seq<Obs>)
    ensures ClockRight(Run(limits, h).warnEnteredAt, Statuses(limits, h))
  {
    if h != [] {
      var front := h[..|h| - 1];
      WarnClock(limits, front);
      RunCounts(limits, front);
      ClockNext(Run(limits, front).warnEnteredAt, Statuses(limits, front), Status(limits, h));
    }
  }
}
