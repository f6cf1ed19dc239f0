/** The mean-based drift detectors: cumulative, and over a sliding window. */
module HddmA {
  import opened DriftEvents
  import opened RealArith
  import opened RingBufferModule
  import opened MeanTest
  import opened HddmAModel

  class HDDM_A {
    const config: Config

    var n: nat
    var sum: real
    var bestMean: real
    var bestBound: real
    var warnEnteredAt: nat

    /** Every value since the last reset. */
    ghost var history: seq<real>

    ghost function Tested(): Test
      reads `n, `bestMean, `bestBound, `warnEnteredAt
    {
      Test(n, Obs(bestMean, bestBound), warnEnteredAt)
    }

    ghost predicate Valid()
      reads this
    {
      && n == |history| && sum == Sum(history)
      && Tested() == Run(config.limits, Cumulative(config, history))
    }

    constructor (config: Config)
      ensures Valid() && history == [] && this.config == config
    {
      this.config := config;
      n, sum, bestMean, bestBound, warnEnteredAt := 0, 0.0, 0.0, 0.0, 0;
      history := [];
    }

    method Reset()
      modifies this
      ensures Valid() && history == []
    {
      n, sum, bestMean, bestBound, warnEnteredAt := 0, 0.0, 0.0, 0.0, 0;
      history := [];
    }

    /** One value into the sum: the mean of all values so far, and the bound at their number. */
    method Observe(value: real) returns (x: Obs)
      requires n == |history| && sum == Sum(history)
      modifies `n, `sum, `history
      ensures n == |history| && sum == Sum(history) && history == old(history) + [value]
      ensures x == Observed(config, history)
    {
      SumNext(history, value);
      n := n + 1;
      sum := sum + value;
      history := history + [value];
      x := Obs(Mean(sum, n), config.epsilon(n));
    }

    method Update(value: real) returns (status: DriftStatus)
      requires Valid()
      modifies this
      ensures Valid() && history == old(history) + [value]
      ensures Cumulative(config, history) != [] && status == Status(config.limits, Cumulative(config, history))
    {
      ghost var before := history;
      var x := Observe(value);
      status := Settle(x, before, value);
    }

    /** The mean of all values is put to the test. */
    method Settle(x: Obs, ghost before: seq<real>, ghost value: real) returns (status: DriftStatus)
      requires history == before + [value] && n == |history| && sum == Sum(history)
      requires Tested() == Run(config.limits, Cumulative(config, before)).(n := n)
      requires x == Observed(config, history)
      modifies `bestMean, `bestBound, `warnEnteredAt
      ensures Valid()
      ensures Cumulative(config, history) != [] && status == Status(config.limits, Cumulative(config, history))
    {
      CumulativeNext(config, before, value);
      RunCounts(config.limits, Cumulative(config, before));
      Lengths(config, 1, before);
      var best, clock, answer := Decide(config.limits, n, x, Obs(bestMean, bestBound), warnEnteredAt);
      bestMean, bestBound, warnEnteredAt := best.mean, best.bound, clock;
      return answer;
    }
  }

  class HDDM_A_Windowed {
    const config: Config
    const windowSize: nat

    /** The last `windowSize` values. */
    var window: RingBuffer<real>
    /** Their sum, kept incrementally. */
    var sum: real
    var bestMean: real
    var bestBound: real
    var n: nat
    var warnEnteredAt: nat

    /** Every value since the last reset. */
    ghost var history: seq<real>

    ghost predicate Held()
      reads `window, `sum, `history, window, window.buffer
    {
      && window.Valid() && window.capacity == windowSize
      && window.Contents == Last(history, windowSize) && sum == Sum(window.Contents)
    }

    ghost function Tested(): Test
      reads `n, `bestMean, `bestBound, `warnEnteredAt
    {
      Test(n, Obs(bestMean, bestBound), warnEnteredAt)
    }

    /** The test has been shown the window after every value. */
    ghost predicate Standing()
      requires windowSize > 0
      reads `n, `bestMean, `bestBound, `warnEnteredAt, `history
    {
      n == |history| && Tested() == Run(config.limits, Windowed(config, windowSize, history))
    }

    ghost predicate Valid()
      reads this, window, window.buffer
    {
      windowSize > 0 && Held() && Standing()
    }

    constructor (config: Config, windowSize: nat)
      requires windowSize > 0
      ensures Valid() && history == [] && this.config == config && this.windowSize == windowSize
      ensures fresh(window) && fresh(window.buffer)
    {
      this.config, this.windowSize := config, windowSize;
      window := new RingBuffer(windowSize, 0.0);
      sum, bestMean, bestBound, n, warnEnteredAt := 0.0, 0.0, 0.0, 0, 0;
      history := [];
    }

    method Reset()
      requires windowSize > 0
      modifies this
      ensures Valid() && history == [] && fresh(window) && fresh(window.buffer)
    {
      window := new RingBuffer(windowSize, 0.0);
      sum, bestMean, bestBound, n, warnEnteredAt := 0.0, 0.0, 0.0, 0, 0;
      history := [];
    }

    /** One value into the window: the overwritten one leaves the sum. */
    method Slide(value: real)
      requires windowSize > 0 && Held()
      modifies this`sum, this`history, window, window.buffer
      ensures Held() && history == old(history) + [value]
    {
      SumSlides(history, windowSize, value);
      PushLast(history, windowSize, value);
      if window.IsFull() {
        sum := sum - window.PeekOldest();
      }
      window.Add(value);
      sum := sum + value;
      history := history + [value];
    }

    /** Mean and bound of the window, the bound taken at its size. */
    method Observation() returns (x: Obs)
      requires windowSize > 0 && Held() && history != []
      ensures x == Observed(config, Last(history, windowSize))
    {
      var w := window.size;
      assert w == |window.Contents|;
      x := Obs(Mean(sum, w), config.epsilon(w));
    }

    /** The observation of the window is put to the test. */
    method Settle(x: Obs, ghost before: seq<real>, ghost value: real) returns (status: DriftStatus)
      requires windowSize > 0 && history == before + [value] && n == |history|
      requires Tested() == Run(config.limits, Windowed(config, windowSize, before)).(n := n)
      requires x == Observed(config, Last(history, windowSize))
      modifies this`bestMean, this`bestBound, this`warnEnteredAt
      ensures Standing()
      ensures Windowed(config, windowSize, history) != []
      ensures status == Status(config.limits, Windowed(config, windowSize, history))
    {
      WindowedNext(config, windowSize, before, value);
      RunCounts(config.limits, Windowed(config, windowSize, before));
      Lengths(config, windowSize, before);
      var best, clock, answer := Decide(config.limits, n, x, Obs(bestMean, bestBound), warnEnteredAt);
      bestMean, bestBound, warnEnteredAt := best.mean, best.bound, clock;
      return answer;
    }

    method Observe(value: real) returns (x: Obs)
      requires windowSize > 0 && Held()
      modifies this`sum, this`history, window, window.buffer
      ensures Held() && history == old(history) + [value] && x == Observed(config, Last(history, windowSize))
    {
      Slide(value);
      x := Observation();
    }

    method Update(value: real) returns (status: DriftStatus)
      requires Valid()
      modifies this`sum, this`history, this`n, this`bestMean, this`bestBound, this`warnEnteredAt, window, window.buffer
      ensures Valid() && history == old(history) + [value]
      ensures Windowed(config, windowSize, history) != []
      ensures status == Status(config.limits, Windowed(config, windowSize, history))
    {
      ghost var before := history;
      n := n + 1;
      var x := Observe(value);
      status := Settle(x, before, value);
    }
  }
}
