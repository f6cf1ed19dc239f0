/**
  The cross-feature aggregator: one step on its evolving state, and a specification on the history of onsets
  that the step is shown to refine.
 */
module AggregatorModel {
  import opened Messages
  import opened Results

  datatype Onset = Onset(featureId: int, pos: int)

  datatype Params = Params(k: nat, aggWin: int, refractory: int)

  datatype Agg = Agg(recent: map<int, int>, roundCounter: Option<int>, lastEmit: Option<int>)

  const NEW_AGG := Agg(map[], None, None)

  predicate InRefractory(c: Params, last: Option<int>, now: int) {
    last.Some? && now - last.value < c.refractory
  }

  /** The onset recorded, and everything that fell out of the window forgotten. */
  function Window(c: Params, recent: map<int, int>, o: Onset): map<int, int> {
    var r := recent[o.featureId := o.pos];
    map f | f in r && r[f] >= o.pos - c.aggWin :: r[f]
  }

  function Receive(c: Params, s: Agg, o: Onset): (Agg, Option<DriftRound>) {
    var r := Window(c, s.recent, o);
    if InRefractory(c, s.lastEmit, o.pos) || |r| < c.k then (s.(recent := r), None)
    else
      var id := s.roundCounter.GetOr(0) + 1;
      (Agg(map[], Some(id), Some(o.pos)), Some(DriftRound(id, COMMITTED, |r|)))
  }

  /** The state after a history of onsets, and the rounds emitted. */
  function Run(c: Params, h: seq<Onset>): (Agg, seq<DriftRound>) {
    if h == [] then (NEW_AGG, [])
    else
      var (s, out) := Run(c, h[..|h| - 1]);
      var (s', d) := Receive(c, s, h[|h| - 1]);
      (s', if d.Some? then out + [d.value] else out)
  }

  // ---------- the specification on the history ----------

  ghost predicate NonDecreasing(h: seq<Onset>) {
    forall i, j :: 0 <= i < j < |h| ==> h[i].pos <= h[j].pos
  }

  /** Distinct features with an onset at index `from` or later whose position is at least `lo`. */
  ghost function Features(h: seq<Onset>, from: nat, lo: int): set<int> {
    set i | from <= i < |h| && h[i].pos >= lo :: h[i].featureId
  }

  /** Distinct features with an onset at index `from` or later within `aggWin` up to the position of the last one. */
  ghost function InWindow(h: seq<Onset>, from: nat, aggWin: int): set<int>
    requires h != []
  {
    set i | from <= i < |h| && h[|h| - 1].pos - aggWin <= h[i].pos <= h[|h| - 1].pos :: h[i].featureId
  }

  /**
    Does the last onset of the history commit, when the first `from` onsets are used up by the previous commit?
    The refractory since that commit is over, and k distinct features have a later onset within the window.
   */
  ghost predicate CommitsAfter(c: Params, h: seq<Onset>, from: nat)
    requires h != [] && from < |h|
  {
    var now := h[|h| - 1].pos;
    && (from == 0 || now - h[from - 1].pos >= c.refractory)
    && |InWindow(h, from, c.aggWin)| >= c.k
  }

  /** Number of onsets up to and including the last one that committed, 0 if none did. */
  ghost function LastCommit(c: Params, h: seq<Onset>): (n: nat)
    ensures n <= |h|
  {
    if h == [] then 0
    else
      var from := LastCommit(c, h[..|h| - 1]);
      if CommitsAfter(c, h, from) then |h| else from
  }

  /** The specification: does the last onset of the history commit? */
  ghost predicate Commits(c: Params, h: seq<Onset>) {
    h != [] && CommitsAfter(c, h, LastCommit(c, h[..|h| - 1]))
  }

  /** `r` maps every feature with an onset from index `from` on at or after `lo` to its latest position. */
  ghost predicate Latest(r: map<int, int>, h: seq<Onset>, from: nat, lo: int) {
    && r.Keys == Features(h, from, lo)
    && forall f :: f in r ==>
         (exists i :: from <= i < |h| && h[i].featureId == f && h[i].pos == r[f])
         && forall i :: from <= i < |h| && h[i].featureId == f ==> h[i].pos <= r[f]
  }

  /** What the evolving state is, in terms of the history. */
  ghost predicate Tracks(c: Params, s: Agg, h: seq<Onset>, from: nat)
    requires from <= |h|
  {
    && s.lastEmit == (if from == 0 then None else Some(h[from - 1].pos))
    && (if h == [] then s.recent == map[] else Latest(s.recent, h, from, h[|h| - 1].pos - c.aggWin))
  }

  /** A feature the step keeps was counted, and one that counts is kept. */
  lemma WindowKeys(c: Params, s: Agg, h: seq<Onset>, from: nat, o: Onset, f: int)
    requires from <= |h| && Tracks(c, s, h, from) && NonDecreasing(h + [o]) && c.aggWin > 0
    ensures f in Window(c, s.recent, o) <==> f in Features(h + [o], from, o.pos - c.aggWin)
  {
    var h' := h + [o];
    var r, lo := Window(c, s.recent, o), o.pos - c.aggWin;
    assert h'[|h|] == o;
    if f in r && f != o.featureId {
      var i :| from <= i < |h| && h[i].featureId == f && h[i].pos == s.recent[f];
      assert h'[i] == h[i];
    }
    if f in Features(h', from, lo) && f != o.featureId {
      var i :| from <= i < |h'| && h'[i].pos >= lo && h'[i].featureId == f;
      assert h'[i] == h[i];
      assert h'[|h| - 1].pos <= h'[|h|].pos;
      assert f in Features(h, from, h[|h| - 1].pos - c.aggWin);
    }
  }

  /** The window kept by the step holds exactly the features the specification counts. */
  lemma WindowTracks(c: Params, s: Agg, h: seq<Onset>, from: nat, o: Onset)
    requires from <= |h| && Tracks(c, s, h, from) && NonDecreasing(h + [o]) && c.aggWin > 0
    ensures Latest(Window(c, s.recent, o), h + [o], from, o.pos - c.aggWin)
  {
    var h', r := h + [o], Window(c, s.recent, o);
    assert h'[|h|] == o;
    forall f ensures f in r.Keys <==> f in Features(h', from, o.pos - c.aggWin) {
      WindowKeys(c, s, h, from, o, f);
    }
    forall f | f in r
      ensures exists i :: from <= i < |h'| && h'[i].featureId == f && h'[i].pos == r[f]
      ensures forall i :: from <= i < |h'| && h'[i].featureId == f ==> h'[i].pos <= r[f]
    {
      if f != o.featureId {
        var i :| from <= i < |h| && h[i].featureId == f && h[i].pos == s.recent[f];
        assert h'[i] == h[i];
      }
    }
  }

  /** Positions never going back, no onset lies beyond the last one. */
  lemma NoneAhead(h: seq<Onset>, from: nat, aggWin: int)
    requires h != [] && NonDecreasing(h)
    ensures InWindow(h, from, aggWin) == Features(h, from, h[|h| - 1].pos - aggWin)
  {
  }

  /** The votes of a round are the distinct features in the window that committed it. */
  ghost predicate VotesCounted(c: Params, h: seq<Onset>, from: nat, d: Option<DriftRound>)
    requires h != []
  {
    d.Some? ==> d.value.status == COMMITTED && d.value.votesYes == |InWindow(h, from, c.aggWin)|
  }

  lemma StepCommits(c: Params, s: Agg, g: seq<Onset>, from: nat, o: Onset)
    requires from <= |g| && Tracks(c, s, g, from) && NonDecreasing(g + [o]) && c.aggWin > 0
    ensures Receive(c, s, o).1.Some? <==> CommitsAfter(c, g + [o], from)
    ensures VotesCounted(c, g + [o], from, Receive(c, s, o).1)
  {
    var h, r := g + [o], Window(c, s.recent, o);
    assert r.Keys == Features(h, from, o.pos - c.aggWin) by { WindowTracks(c, s, g, from, o); }
    assert |r| == |r.Keys|;
    NoneAhead(h, from, c.aggWin);
    assert from > 0 ==> h[from - 1] == g[from - 1];
  }

  lemma StepRefines(c: Params, s: Agg, g: seq<Onset>, from: nat, o: Onset)
    requires from <= |g| && Tracks(c, s, g, from) && NonDecreasing(g + [o]) && c.aggWin > 0
    ensures var h := g + [o]; var (s', d) := Receive(c, s, o);
      && (d.Some? <==> CommitsAfter(c, h, from)) && VotesCounted(c, h, from, d)
      && Tracks(c, s', h, if CommitsAfter(c, h, from) then |h| else from)
  {
    var h := g + [o];
    StepCommits(c, s, g, from, o);
    if CommitsAfter(c, h, from) {
      assert Features(h, |h|, o.pos - c.aggWin) == {};
    } else {
      WindowTracks(c, s, g, from, o);
      assert from > 0 ==> h[from - 1] == g[from - 1];
    }
  }

  lemma LastStepRefines(c: Params, s: Agg, h: seq<Onset>, from: nat)
    requires h != [] && from < |h| && Tracks(c, s, h[..|h| - 1], from) && NonDecreasing(h) && c.aggWin > 0
    ensures var (s', d) := Receive(c, s, h[|h| - 1]);
      && (d.Some? <==> CommitsAfter(c, h, from)) && VotesCounted(c, h, from, d)
      && Tracks(c, s', h, if CommitsAfter(c, h, from) then |h| else from)
  {
    var g, o := h[..|h| - 1], h[|h| - 1];
    assert h == g + [o];
    StepRefines(c, s, g, from, o);
  }

  lemma Extend(c: Params, h: seq<Onset>)
    requires h != []
    ensures var g, o := h[..|h| - 1], h[|h| - 1]; var from := LastCommit(c, g);
      && Run(c, h).0 == Receive(c, Run(c, g).0, o).0
      && (Commits(c, h) <==> CommitsAfter(c, h, from))
      && LastCommit(c, h) == if CommitsAfter(c, h, from) then |h| else from
  {
  }

  /** The aggregator emits at an onset exactly when the specification commits there. */
  lemma {:induction false} RefinesHistory(c: Params, h: seq<Onset>)
    requires NonDecreasing(h) && c.aggWin > 0
    ensures Tracks(c, Run(c, h).0, h, LastCommit(c, h))
    ensures h != [] ==>
      var g, o := h[..|h| - 1], h[|h| - 1]; var d := Receive(c, Run(c, g).0, o).1;
      (d.Some? <==> Commits(c, h)) && VotesCounted(c, h, LastCommit(c, g), d)
  {
    if h != [] {
      var g := h[..|h| - 1];
      RefinesHistory(c, g);
      Extend(c, h);
      LastStepRefines(c, Run(c, g).0, h, LastCommit(c, g));
    }
  }

  // ---------- positions that go back ----------

  /** The aggregator's answer to the last onset is the specification's. */
  ghost predicate Agrees(c: Params, h: seq<Onset>) {
    h != [] ==> (Receive(c, Run(c, h[..|h| - 1]).0, h[|h| - 1]).1.Some? <==> Commits(c, h))
  }

  /** `h` are onsets, of whatever features, at a stretch of the positions `ps`. */
  ghost predicate Stretch(h: seq<Onset>, ps: seq<int>, a: nat) {
    a + |h| <= |ps| && forall i :: 0 <= i < |h| ==> h[i].pos == ps[a + i]
  }

  ghost predicate NeverBack(ps: seq<int>) {
    forall i, j :: 0 <= i < j < |ps| ==> ps[i] <= ps[j]
  }

  /** After an onset at a later position the aggregator still counts that one; the window ending here does not. */
  lemma GoingBackDiffers(aggWin: int, p: int, q: int)
    requires aggWin > 0 && p > q
    ensures var c, h := Params(2, aggWin, 0), [Onset(0, p), Onset(1, q)];
      !Commits(c, h) && Receive(c, Run(c, h[..1]).0, h[1]).1.Some?
  {
    var c, h := Params(2, aggWin, 0), [Onset(0, p), Onset(1, q)];
    assert h[..1] == [h[0]] && h[..1][..0] == [];
    assert InWindow(h[..1], 0, aggWin) == {0} && LastCommit(c, h[..1]) == 0;
    assert InWindow(h, 0, aggWin) == {1};
    var w1 := Window(c, map[], h[0]);
    assert w1.Keys == {0} && |w1| == |w1.Keys| == 1;
    assert Run(c, h[..1]).0.recent == w1 by { assert Run(c, []) == (NEW_AGG, []); }
    var w2 := Window(c, w1, h[1]);
    assert w2.Keys == {0, 1} && |w2| == |w2.Keys| == 2;
  }

  /** Started anywhere it agrees with the specification, for all features and k, exactly if positions never go back. */
  lemma AgreesExactlyInOrder(aggWin: int, ps: seq<int>)
    requires aggWin > 0
    ensures (forall c: Params, h, a: nat :: c.aggWin == aggWin && Stretch(h, ps, a) ==> Agrees(c, h)) <==> NeverBack(ps)
  {
    if NeverBack(ps) {
      forall c: Params, h, a: nat | c.aggWin == aggWin && Stretch(h, ps, a) ensures Agrees(c, h) {
        RefinesHistory(c, h);
      }
    } else {
      var i := FirstStepBack(ps);
      var c, h := Params(2, aggWin, 0), [Onset(0, ps[i]), Onset(1, ps[i + 1])];
      GoingBackDiffers(aggWin, ps[i], ps[i + 1]);
      assert Stretch(h, ps, i) && h[..|h| - 1] == h[..1] && !Agrees(c, h);
    }
  }

  /** Where positions go back at all, two neighbours do. */
  lemma {:induction false} FirstStepBack(ps: seq<int>) returns (i: nat)
    requires !NeverBack(ps)
    ensures i + 1 < |ps| && ps[i] > ps[i + 1]
  {
    var a, b :| 0 <= a < b < |ps| && ps[a] > ps[b];
    if ps[b - 1] > ps[b] {
      i := b - 1;
    } else {
      assert ps[..b][a] > ps[..b][b - 1];
      i := FirstStepBack(ps[..b]);
    }
  }

  // ---------- every run ----------

  /** Round ids 1, 2, 3, ..., each COMMITTED on at least k features; k onsets are used up per round. */
  ghost predicate Counted(c: Params, s: Agg, rounds: seq<DriftRound>, onsets: nat) {
    && s.roundCounter == (if rounds == [] then None else Some(|rounds|))
    && (forall i :: 0 <= i < |rounds| ==> rounds[i].roundId == i + 1 && rounds[i].status == COMMITTED
                                          && rounds[i].votesYes >= c.k)
    && c.k * |rounds| + |s.recent| <= onsets
  }

  lemma WindowSize(c: Params, recent: map<int, int>, o: Onset)
    ensures |Window(c, recent, o)| <= |recent| + 1
  {
    var r := recent[o.featureId := o.pos];
    assert r.Keys == recent.Keys + {o.featureId};
    assert Window(c, recent, o).Keys <= r.Keys;
    assert r.Keys == Window(c, recent, o).Keys + (r.Keys - Window(c, recent, o).Keys);
    assert |Window(c, recent, o)| == |Window(c, recent, o).Keys| && |recent| == |recent.Keys| && |r| == |r.Keys|;
  }

  lemma CountedNext(c: Params, s: Agg, rounds: seq<DriftRound>, onsets: nat, o: Onset)
    requires Counted(c, s, rounds, onsets) && c.k > 0
    ensures var (s', d) := Receive(c, s, o);
      Counted(c, s', if d.Some? then rounds + [d.value] else rounds, onsets + 1)
  {
    WindowSize(c, s.recent, o);
    assert c.k * (|rounds| + 1) == c.k * |rounds| + c.k;
  }

  lemma {:induction false} RoundsCounted(c: Params, h: seq<Onset>)
    requires c.k > 0
    ensures var (s, rounds) := Run(c, h); Counted(c, s, rounds, |h|)
    ensures c.k * |Run(c, h).1| <= |h|
  {
    if h != [] {
      RoundsCounted(c, h[..|h| - 1]);
      CountedNext(c, Run(c, h[..|h| - 1]).0, Run(c, h[..|h| - 1]).1, |h| - 1, h[|h| - 1]);
    }
  }

  /** Positions at which rounds were emitted. */
  ghost function CommitPositions(c: Params, h: seq<Onset>): seq<int> {
    if h == [] then []
    else
      var rest, o := CommitPositions(c, h[..|h| - 1]), h[|h| - 1];
      if Receive(c, Run(c, h[..|h| - 1]).0, o).1.Some? then rest + [o.pos] else rest
  }

  ghost predicate Spaced(ps: seq<int>, refractory: int) {
    && (forall i :: 0 <= i < |ps| - 1 ==> ps[i + 1] - ps[i] >= refractory)
    && (ps != [] ==> ps[|ps| - 1] - ps[0] >= (|ps| - 1) * refractory)
  }

  lemma SpacedMore(ps: seq<int>, p: int, refractory: int)
    requires Spaced(ps, refractory) && (ps != [] ==> p - ps[|ps| - 1] >= refractory)
    ensures Spaced(ps + [p], refractory)
  {
    var n := |ps| - 1;
    assert (n + 1) * refractory == n * refractory + refractory;
  }

  /** Consecutive rounds are at least the refractory apart, so n rounds span at least (n - 1) refractories. */
  lemma {:induction false} RoundsSpaced(c: Params, h: seq<Onset>)
    ensures var ps := CommitPositions(c, h);
      && |ps| == |Run(c, h).1|
      && Run(c, h).0.lastEmit == (if ps == [] then None else Some(ps[|ps| - 1]))
      && Spaced(ps, c.refractory)
  {
    if h != [] {
      RoundsSpaced(c, h[..|h| - 1]);
      var ps, o := CommitPositions(c, h[..|h| - 1]), h[|h| - 1];
      if Receive(c, Run(c, h[..|h| - 1]).0, o).1.Some? {
        SpacedMore(ps, o.pos, c.refractory);
      }
    }
  }
}
