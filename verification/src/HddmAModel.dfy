/** The mean-based detectors on values: over all samples, and over the last W of them. */
module HddmAModel {
  import opened RealArith
  import opened RingBufferModule
  import opened MeanTest

  /** `epsilon(n)` is sqrt(ln(1/driftConfidence) / (2 n)). */
  datatype Config = Config(epsilon: nat -> real, limits: Thresholds)

  function Observed(c: Config, s: seq<real>): Obs
    requires s != []
  {
    Obs(Mean(Sum(s), |s|), c.epsilon(|s|))
  }

  /** The mean of the values, and the bound at their number. */
  lemma ObservedMeaning(c: Config, s: seq<real>)
    requires s != []
    ensures Times(|s| as real, Observed(c, s).mean) == Sum(s)
    ensures Observed(c, s).bound == c.epsilon(|s|)
  {
  }

  /** What the cumulative test is shown. */
  function Cumulative(c: Config, h: seq<real>): seq<Obs> {
    if h == [] then [] else Cumulative(c, h[..|h| - 1]) + [Observed(c, h)]
  }

  /** What the windowed test is shown. */
  function Windowed(c: Config, w: nat, h: seq<real>): seq<Obs>
    requires w > 0
  {
    if h == [] then [] else Windowed(c, w, h[..|h| - 1]) + [Observed(c, Last(h, w))]
  }

  lemma {:induction false} SumFirst(s: seq<real>)
    requires s != []
    ensures Sum(s) == s[0] + Sum(s[1..])
  {
    if |s| > 1 {
      SumFirst(s[..|s| - 1]);
      assert s[..|s| - 1][1..] == s[1..][..|s| - 2];
    }
  }

  /** The incremental sum: the overwritten value leaves, the new one enters. */
  lemma SumSlides(h: seq<real>, w: nat, x: real)
    requires w > 0
    ensures var s := Last(h, w); var t := Last(h + [x], w);
      Sum(t) == (if |s| == w then Sum(s) - s[0] else Sum(s)) + x
  {
    var s, t := Last(h, w), Last(h + [x], w);
    if |s| == w {
      SumFirst(s);
      assert t == s[1..] + [x];
      assert t[..|t| - 1] == s[1..];
    } else {
      assert t == s + [x];
      assert t[..|t| - 1] == s;
    }
  }

  /** The bound shrinks with every further sample, as the square root makes it. */
  ghost predicate Shrinking(c: Config) {
    forall n: nat :: n > 0 ==> c.epsilon(n + 1) < c.epsilon(n)
  }

  lemma {:induction false} Lengths(c: Config, w: nat, h: seq<real>)
    requires w > 0
    ensures |Windowed(c, w, h)| == |Cumulative(c, h)| == |h|
  {
    if h != [] { Lengths(c, w, h[..|h| - 1]); }
  }

  lemma {:induction false} SameUpToW(c: Config, w: nat, h: seq<real>)
    requires 0 < w && |h| <= w
    ensures Windowed(c, w, h) == Cumulative(c, h)
  {
    if h != [] { SameUpToW(c, w, h[..|h| - 1]); }
  }

  lemma {:induction false} BoundShrinks(c: Config, m: nat, n: nat)
    requires Shrinking(c) && 0 < m < n
    ensures c.epsilon(n) < c.epsilon(m)
  {
    if m < n - 1 { BoundShrinks(c, m, n - 1); }
  }

  /**
    The two detectors are shown the same, and so answer alike, on runs of at most W samples; on every longer run the
    windowed one is shown a wider interval.
   */
  lemma SameExactlyUpToW(c: Config, w: nat, h: seq<real>)
    requires w > 0
    ensures |h| <= w ==> Statuses(c.limits, Windowed(c, w, h)) == Statuses(c.limits, Cumulative(c, h))
    ensures Shrinking(c) ==> (Windowed(c, w, h) == Cumulative(c, h) <==> |h| <= w)
  {
    if |h| <= w {
      SameUpToW(c, w, h);
    } else if Shrinking(c) {
      BoundShrinks(c, w, |h|);
      Lengths(c, w, h);
      assert Windowed(c, w, h)[|h| - 1] == Observed(c, Last(h, w)) by { Lengths(c, w, h[..|h| - 1]); }
      assert Cumulative(c, h)[|h| - 1] == Observed(c, h) by { Lengths(c, w, h[..|h| - 1]); }
    }
  }

  lemma SumNext(h: seq<real>, x: real)
    ensures Sum(h + [x]) == Sum(h) + x
  {
    assert (h + [x])[..|h|] == h;
  }

  lemma CumulativeNext(c: Config, h: seq<real>, x: real)
    ensures var s, s' := Cumulative(c, h), Cumulative(c, h + [x]);
      && s' != []
      && (Run(c.limits, s'), Status(c.limits, s')) == Judge(c.limits, Run(c.limits, s), Observed(c, h + [x]))
  {
    assert (h + [x])[..|h|] == h;
    var s, s' := Cumulative(c, h), Cumulative(c, h + [x]);
    assert s'[..|s'| - 1] == s;
  }

  lemma WindowedNext(c: Config, w: nat, h: seq<real>, x: real)
    requires w > 0
    ensures var s, s' := Windowed(c, w, h), Windowed(c, w, h + [x]);
      && s' != []
      && (Run(c.limits, s'), Status(c.limits, s')) == Judge(c.limits, Run(c.limits, s), Observed(c, Last(h + [x], w)))
  {
    assert (h + [x])[..|h|] == h;
    var s, s' := Windowed(c, w, h), Windowed(c, w, h + [x]);
    assert s'[..|s'| - 1] == s;
  }
}
