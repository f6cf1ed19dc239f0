/** The EWMA drift detector of one signal. */
module HddmW {
  import opened DriftEvents
  import opened MeanTest
  import opened EwmaModel

  lemma ShownNext(c: Config, h: seq<real>, x: real)
    requires Admissible(c)
    ensures var s, h' := Shown(c, h), h + [x];
      && Shown(c, h') != []
      && Average(c.lambda, h') == (if h == [] then x else Blend(c.lambda, Average(c.lambda, h), x))
      && (Run(c.limits, Shown(c, h')), Status(c.limits, Shown(c, h')))
         == Judge(c.limits, Run(c.limits, s), Obs(Average(c.lambda, h'), c.epsilon))
  {
    var s, h' := Shown(c, h), h + [x];
    assert h'[..|h'| - 1] == h;
    assert Shown(c, h')[..|Shown(c, h')| - 1] == s;
  }

  class HDDM_W {
    const config: Config

    var ewma: real
    var bestMean: real
    var bestBound: real
    var n: nat
    /** Sample count at which the present warning began; 0 outside a warning. */
    var warnEnteredAt: nat

    /** Every value since the last reset. */
    ghost var history: seq<real>

    ghost function Tested(): Test
      reads `n, `bestMean, `bestBound, `warnEnteredAt
    {
      Test(n, Obs(bestMean, bestBound), warnEnteredAt)
    }

    ghost predicate Valid()
      reads this
    {
      && Admissible(config)
      && n == |history| && Tested() == Run(config.limits, Shown(config, history))
      && (history != [] ==> ewma == Average(config.lambda, history))
    }

    constructor (config: Config)
      requires Admissible(config)
      ensures Valid() && history == [] && this.config == config
    {
      this.config := config;
      ewma, bestMean, bestBound, n, warnEnteredAt := 0.0, 0.0, 0.0, 0, 0;
      history := [];
    }

    method Reset()
      requires Admissible(config)
      modifies this
      ensures Valid() && history == []
    {
      ewma, bestMean, bestBound, n, warnEnteredAt := 0.0, 0.0, 0.0, 0, 0;
      history := [];
    }

    /** One value: its average is judged against the least one since the reset. */
    method Update(value: real) returns (status: DriftStatus)
      requires Valid()
      modifies this
      ensures Valid() && history == old(history) + [value]
      ensures Shown(config, history) != [] && status == Status(config.limits, Shown(config, history))
    {
      ghost var before := history;
      n := n + 1;
      if n == 1 {
        ewma := value;
      } else {
        ewma := Blend(config.lambda, ewma, value);
      }
      history := history + [value];
      status := Settle(before, value);
    }

    /** The new average is put to the test. */
    method Settle(ghost before: seq<real>, ghost value: real) returns (status: DriftStatus)
      requires history == before + [value] && n == |history|
      requires Tested() == Run(config.limits, Shown(config, before)).(n := n)
      requires Admissible(config)
      requires ewma == if before == [] then value else Blend(config.lambda, Average(config.lambda, before), value)
      modifies `bestMean, `bestBound, `warnEnteredAt
      ensures Valid()
      ensures Shown(config, history) != [] && status == Status(config.limits, Shown(config, history))
    {
      ShownNext(config, before, value);
      RunCounts(config.limits, Shown(config, before));
      if before != [] { ShownAt(config, before, 0); }
      var x := Obs(ewma, config.epsilon);
      var best, clock, answer := Decide(config.limits, n, x, Obs(bestMean, bestBound), warnEnteredAt);
      bestMean, bestBound, warnEnteredAt := best.mean, best.bound, clock;
      return answer;
    }

    /** How long the present warning has lasted. */
    function WarnDuration(): (d: int)
      requires Valid()
      reads this
    {
      if warnEnteredAt == 0 then 0 else n - warnEnteredAt
    }

    /** A warning has timed out when that many samples have passed since its first one, all of them warnings. */
    method WarnTimedOut() returns (b: bool)
      requires Valid() && config.warnTimeout > 0
      ensures b <==> |history| > config.warnTimeout
                     && WarnedSince(Statuses(config.limits, Shown(config, history)), |history| - config.warnTimeout)
    {
      b := WarnDuration() >= config.warnTimeout;
      Timeout(config, history, config.warnTimeout);
    }
  }

  lemma Timeout(c: Config, h: seq<real>, t: nat)
    requires Admissible(c) && t > 0
    ensures var e := Run(c.limits, Shown(c, h)).warnEnteredAt;
      (e != 0 && |h| - e >= t) <==> |h| > t && WarnedSince(Statuses(c.limits, Shown(c, h)), |h| - t)
  {
    var s := Shown(c, h);
    if h != [] { ShownAt(c, h, 0); }
    WarnClock(c.limits, s);
    ClockReached(Run(c.limits, s).warnEnteredAt, Statuses(c.limits, s), t);
  }

  lemma ClockReached(e: nat, answers: seq<DriftStatus>, t: nat)
    requires ClockRight(e, answers) && t > 0
    ensures (e != 0 && |answers| - e >= t) <==> |answers| > t && WarnedSince(answers, |answers| - t)
  {
    if |answers| > t && WarnedSince(answers, |answers| - t) {
      assert answers[|answers| - 1] == WARN;
      assert e > 1 ==> answers[e - 2] != WARN;
    }
  }
}
