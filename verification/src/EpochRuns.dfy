/** Runs that start over after every report: what holds of any rule deciding when to report. */
module EpochRuns {
  import opened Results

  /** After `warmup` values since the restart, `drifts` says whether to report, and `signal` what. */
  datatype Rule = Rule(warmup: nat, drifts: seq<real> -> bool, signal: seq<real> -> real)

  datatype Sample = Sample(pos: int, value: real)

  datatype Report = Report(onset: int, signal: real)

  /** `seen`: the values since the last restart. */
  function Receive(r: Rule, seen: seq<real>, x: Sample): (seq<real>, Option<Report>) {
    var h := seen + [x.value];
    if |h| > r.warmup && r.drifts(h) then ([], Some(Report(x.pos, r.signal(h)))) else (h, None)
  }

  function Run(r: Rule, h: seq<Sample>): (seq<real>, seq<Report>) {
    if h == [] then ([], [])
    else
      var (seen, out) := Run(r, h[..|h| - 1]);
      var (seen', report) := Receive(r, seen, h[|h| - 1]);
      (seen', if report.Some? then out + [report.value] else out)
  }

  ghost predicate Increasing(h: seq<Sample>) {
    forall i, j :: 0 <= i < j < |h| ==> h[i].pos < h[j].pos
  }

  /** The last samples of h[..b] hold `values`. */
  ghost predicate EndsWith(h: seq<Sample>, b: nat, values: seq<real>)
    requires |values| <= b <= |h|
  {
    forall i :: 0 <= i < |values| ==> h[b - |values| + i].value == values[i]
  }

  /** The report comes from the values up to sample b - 1, none of them used by a report before. */
  ghost predicate Explains(r: Rule, h: seq<Sample>, values: seq<real>, b: nat, report: Report) {
    && r.warmup < |values| <= b <= |h| && EndsWith(h, b, values) && r.drifts(values)
    && report == Report(h[b - 1].pos, r.signal(values))
  }

  ghost predicate Justified(r: Rule, h: seq<Sample>, report: Report) {
    exists values, b :: Explains(r, h, values, b, report)
  }

  ghost predicate AllJustified(r: Rule, h: seq<Sample>, out: seq<Report>) {
    forall i :: 0 <= i < |out| ==> Justified(r, h, out[i])
  }

  /** A report takes a number of values after the warm-up that is `enough`. */
  ghost predicate Needs(r: Rule, enough: nat -> bool) {
    forall v: seq<real> :: |v| > r.warmup && r.drifts(v) ==> enough(|v| - r.warmup)
  }

  ghost predicate Apart(r: Rule, enough: nat -> bool, a: int, b: int) {
    exists m: nat :: enough(m) && b - a >= r.warmup + m
  }

  ghost predicate Spaced(r: Rule, enough: nat -> bool, out: seq<Report>) {
    forall i, j :: 0 <= i && j == i + 1 && j < |out| ==> Apart(r, enough, out[i].onset, out[j].onset)
  }

  /** `seen` are the values at the end of the run, and the last report lies before them. */
  ghost predicate Since(h: seq<Sample>, seen: seq<real>, out: seq<Report>) {
    && |seen| <= |h| && EndsWith(h, |h|, seen)
    && (Increasing(h) && out != [] ==> h != [] && h[|h| - 1].pos >= out[|out| - 1].onset + |seen|)
  }

  ghost predicate RunOk(r: Rule, enough: nat -> bool, h: seq<Sample>, seen: seq<real>, out: seq<Report>) {
    && Since(h, seen, out) && AllJustified(r, h, out)
    && (Increasing(h) && Needs(r, enough) ==> Spaced(r, enough, out))
  }

  lemma JustifiedLonger(r: Rule, h: seq<Sample>, x: Sample, report: Report)
    requires Justified(r, h, report)
    ensures Justified(r, h + [x], report)
  {
    var values, b :| Explains(r, h, values, b, report);
    assert EndsWith(h + [x], b, values) && (h + [x])[b - 1] == h[b - 1];
    assert Explains(r, h + [x], values, b, report);
  }

  lemma SinceNext(r: Rule, h: seq<Sample>, seen: seq<real>, out: seq<Report>, x: Sample)
    requires Since(h, seen, out)
    ensures var (seen', report) := Receive(r, seen, x);
      Since(h + [x], seen', if report.Some? then out + [report.value] else out)
  {
    assert (h + [x])[|h|] == x;
    if Increasing(h + [x]) {
      StillIncreasing(h, x);
      assert h != [] ==> (h + [x])[|h| - 1].pos < (h + [x])[|h|].pos;
    }
  }

  lemma StillIncreasing(h: seq<Sample>, x: Sample)
    requires Increasing(h + [x])
    ensures Increasing(h)
  {
    assert forall i :: 0 <= i < |h| ==> (h + [x])[i] == h[i];
  }

  lemma ReportNext(r: Rule, h: seq<Sample>, seen: seq<real>, out: seq<Report>, x: Sample)
    requires Since(h, seen, out) && Receive(r, seen, x).1.Some?
    ensures Justified(r, h + [x], Receive(r, seen, x).1.value)
  {
    assert (h + [x])[|h|] == x;
    assert Explains(r, h + [x], seen + [x.value], |h| + 1, Receive(r, seen, x).1.value);
  }

  lemma ReportApart(r: Rule, enough: nat -> bool, h: seq<Sample>, seen: seq<real>, out: seq<Report>, x: Sample)
    requires Since(h, seen, out) && Increasing(h + [x]) && Needs(r, enough)
    requires Receive(r, seen, x).1.Some?
    ensures out != [] ==> Apart(r, enough, out[|out| - 1].onset, x.pos)
  {
    var values := seen + [x.value];
    StillIncreasing(h, x);
    assert (h + [x])[|h|] == x;
    assert h != [] ==> (h + [x])[|h| - 1].pos < (h + [x])[|h|].pos;
    if out != [] {
      assert enough(|values| - r.warmup) && x.pos - out[|out| - 1].onset >= r.warmup + (|values| - r.warmup);
    }
  }

  lemma AllJustifiedLonger(r: Rule, h: seq<Sample>, x: Sample, out: seq<Report>)
    requires AllJustified(r, h, out)
    ensures AllJustified(r, h + [x], out)
  {
    forall i | 0 <= i < |out| ensures Justified(r, h + [x], out[i]) {
      JustifiedLonger(r, h, x, out[i]);
    }
  }

  lemma OneMoreJustified(r: Rule, h: seq<Sample>, out: seq<Report>, report: Report)
    requires AllJustified(r, h, out) && Justified(r, h, report)
    ensures AllJustified(r, h, out + [report])
  {
  }

  lemma OneMoreSpaced(r: Rule, enough: nat -> bool, out: seq<Report>, report: Report)
    requires Spaced(r, enough, out)
    requires out != [] ==> Apart(r, enough, out[|out| - 1].onset, report.onset)
    ensures Spaced(r, enough, out + [report])
  {
  }

  lemma SpacedNext(r: Rule, enough: nat -> bool, h: seq<Sample>, seen: seq<real>, out: seq<Report>, x: Sample)
    requires RunOk(r, enough, h, seen, out) && Increasing(h + [x]) && Needs(r, enough)
    ensures var report := Receive(r, seen, x).1;
      Spaced(r, enough, if report.Some? then out + [report.value] else out)
  {
    StillIncreasing(h, x);
    if Receive(r, seen, x).1.Some? {
      ReportApart(r, enough, h, seen, out, x);
      OneMoreSpaced(r, enough, out, Receive(r, seen, x).1.value);
    }
  }

  lemma RunNext(r: Rule, enough: nat -> bool, h: seq<Sample>, seen: seq<real>, out: seq<Report>, x: Sample)
    requires RunOk(r, enough, h, seen, out)
    ensures var (seen', report) := Receive(r, seen, x);
      RunOk(r, enough, h + [x], seen', if report.Some? then out + [report.value] else out)
  {
    SinceNext(r, h, seen, out, x);
    AllJustifiedLonger(r, h, x, out);
    if Increasing(h + [x]) && Needs(r, enough) {
      SpacedNext(r, enough, h, seen, out, x);
    }
    if Receive(r, seen, x).1.Some? {
      var report := Receive(r, seen, x).1.value;
      ReportNext(r, h, seen, out, x);
      assert AllJustified(r, h + [x], out + [report]) by { OneMoreJustified(r, h + [x], out, report); }
    }
  }

  /**
    Over every run each report follows from the values since the last restart, and, positions strictly increasing,
    consecutive reports are at least a warm-up and enough further samples apart.
   */
  lemma {:induction false} ReportsOverRuns(r: Rule, enough: nat -> bool, h: seq<Sample>)
    ensures RunOk(r, enough, h, Run(r, h).0, Run(r, h).1)
  {
    if h != [] {
      var front, x := h[..|h| - 1], h[|h| - 1];
      assert h == front + [x];
      ReportsOverRuns(r, enough, front);
      RunNext(r, enough, front, Run(r, front).0, Run(r, front).1, x);
    }
  }

  // ---------- exactly which reports a run makes ----------

  ghost function Values(h: seq<Sample>, a: nat, b: nat): seq<real>
    requires a <= b <= |h|
  {
    seq(b - a, i requires 0 <= i < b - a => h[a + i].value)
  }

  /** With the values from `a` to `b` there is something to report. */
  ghost predicate Due(r: Rule, h: seq<Sample>, a: nat, b: nat) {
    a + r.warmup < b <= |h| && r.drifts(Values(h, a, b))
  }

  /** `b` is the first such end for the start `a`. */
  ghost predicate FirstDue(r: Rule, h: seq<Sample>, a: nat, b: nat) {
    Due(r, h, a, b) && forall j :: a <= j < b ==> !Due(r, h, a, j)
  }

  function StartOf(ends: seq<nat>, i: nat): nat
    requires i <= |ends|
  {
    if i == 0 then 0 else ends[i - 1]
  }

  /** The i-th report: at the first sample at which it was due, with the signal of the values since the one before. */
  ghost predicate MadeAt(r: Rule, h: seq<Sample>, ends: seq<nat>, out: seq<Report>, i: nat)
    requires i < |ends| == |out|
  {
    && FirstDue(r, h, StartOf(ends, i), ends[i])
    && out[i] == Report(h[ends[i] - 1].pos, r.signal(Values(h, StartOf(ends, i), ends[i])))
  }

  /** Those are all the reports: none is due since the last one. */
  ghost predicate Complete(r: Rule, h: seq<Sample>, ends: seq<nat>, out: seq<Report>) {
    && |ends| == |out|
    && (forall i :: 0 <= i < |ends| ==> MadeAt(r, h, ends, out, i))
    && forall j :: StartOf(ends, |ends|) <= j <= |h| ==> !Due(r, h, StartOf(ends, |ends|), j)
  }

  lemma SameValues(h: seq<Sample>, x: Sample, a: nat, b: nat)
    requires a <= b <= |h|
    ensures Values(h + [x], a, b) == Values(h, a, b)
  {
  }

  lemma StillMade(r: Rule, h: seq<Sample>, x: Sample, ends: seq<nat>, out: seq<Report>, i: nat)
    requires i < |ends| == |out| && MadeAt(r, h, ends, out, i)
    ensures MadeAt(r, h + [x], ends, out, i)
  {
    var a, b := StartOf(ends, i), ends[i];
    SameValues(h, x, a, b);
    assert (h + [x])[b - 1] == h[b - 1];
    forall j | a <= j < b ensures !Due(r, h + [x], a, j) {
      SameValues(h, x, a, j);
      assert !Due(r, h, a, j);
    }
  }

  lemma MoreMade(r: Rule, h: seq<Sample>, ends: seq<nat>, out: seq<Report>, b: nat, report: Report, i: nat)
    requires i < |ends| == |out| && MadeAt(r, h, ends, out, i)
    ensures MadeAt(r, h, ends + [b], out + [report], i)
  {
    assert StartOf(ends + [b], i) == StartOf(ends, i);
  }

  lemma NoneDue(r: Rule, h: seq<Sample>, x: Sample, a: nat)
    requires forall j :: a <= j <= |h| ==> !Due(r, h, a, j)
    ensures forall j :: a <= j <= |h| ==> !Due(r, h + [x], a, j)
  {
    forall j | a <= j <= |h| ensures !Due(r, h + [x], a, j) {
      SameValues(h, x, a, j);
      assert !Due(r, h, a, j);
    }
  }

  /** One sample: no report is due and the values go on, or one is made and they start over. */
  lemma CompleteNext(r: Rule, h: seq<Sample>, ends: seq<nat>, out: seq<Report>, x: Sample) returns (ends': seq<nat>)
    requires Complete(r, h, ends, out) && StartOf(ends, |ends|) <= |h|
    ensures var (seen, report) := Receive(r, Values(h, StartOf(ends, |ends|), |h|), x);
      var out' := if report.Some? then out + [report.value] else out;
      && Complete(r, h + [x], ends', out') && StartOf(ends', |ends'|) <= |h| + 1
      && seen == Values(h + [x], StartOf(ends', |ends'|), |h| + 1)
  {
    var h', a := h + [x], StartOf(ends, |ends|);
    var values := Values(h, a, |h|);
    assert values + [x.value] == Values(h', a, |h'|);
    NoneDue(r, h, x, a);
    forall i | 0 <= i < |ends| ensures MadeAt(r, h', ends, out, i) {
      StillMade(r, h, x, ends, out, i);
    }
    if Due(r, h', a, |h'|) {
      ends' := ends + [|h'|];
      var report := Receive(r, values, x).1.value;
      assert MadeAt(r, h', ends', out + [report], |ends|);
      forall i | 0 <= i < |ends| ensures MadeAt(r, h', ends', out + [report], i) {
        MoreMade(r, h', ends, out, |h'|, report, i);
      }
      assert Values(h', |h'|, |h'|) == [];
    } else {
      ends' := ends;
    }
  }

  /** Over every run a report is made at the first sample at which one is due since the one before, and only there. */
  lemma {:induction false} ReportsExactly(r: Rule, h: seq<Sample>) returns (ends: seq<nat>)
    ensures Complete(r, h, ends, Run(r, h).1) && StartOf(ends, |ends|) <= |h|
    ensures Run(r, h).0 == Values(h, StartOf(ends, |ends|), |h|)
  {
    if h == [] {
      ends := [];
    } else {
      var front, x := h[..|h| - 1], h[|h| - 1];
      ends := ReportsExactly(r, front);
      ends := CompleteNext(r, front, ends, Run(r, front).1, x);
      assert front + [x] == h;
    }
  }

  /** A rule that never decides to report never reports. */
  lemma {:induction false} Silent(r: Rule, h: seq<Sample>)
    requires forall v: seq<real> :: |v| > r.warmup ==> !r.drifts(v)
    ensures Run(r, h).1 == []
  {
    if h != [] { Silent(r, h[..|h| - 1]); }
  }
}
