/** Which points each tree of one scoring operator was trained on: the first trees, and under D1A the retrained ones. */
module LocalPools {
  import opened Messages
  import opened Results
  import opened RingBufferModule
  import opened LocalModel
  import opened LocalRuns
  import opened LocalStreams

  /** The n-th COOLDOWN was the one of the tree's round, and the tree comes from the newest of its first points. */
  ghost predicate RetrainedIn(cfg: Config, t: Trace, n: nat, m: TreeMsg) {
    && n < |t.rounds| && n < |t.openedAt| && t.rounds[n] == m.round
    && t.openedAt[n] + Target(cfg) <= |t.arrived|
    && TrainedOn(cfg, m.tree, Last(t.arrived[t.openedAt[n]..t.openedAt[n] + Target(cfg)], cfg.ringBufferSize))
  }

  /** The tree in slot k of round 0 comes from the newest points when ringBufferSize + 1 + k had arrived. */
  ghost predicate FirstTree(cfg: Config, t: Trace, m: TreeMsg) {
    var n := cfg.ringBufferSize + 1 + m.slot;
    && 0 <= n <= |t.arrived|
    && TrainedOn(cfg, m.tree, Last(t.arrived[..n], cfg.ringBufferSize))
  }

  ghost predicate Sourced(cfg: Config, t: Trace, m: TreeMsg) {
    if m.round == 0 then FirstTree(cfg, t, m) else exists n: nat :: RetrainedIn(cfg, t, n, m)
  }

  ghost predicate AllSourced(cfg: Config, t: Trace) {
    forall i :: 0 <= i < |t.sent| ==> Sourced(cfg, t, t.sent[i])
  }

  /** A COOLDOWN has received exactly the points since it was opened. */
  ghost predicate Windows(t: Trace) {
    && |t.openedAt| == |t.rounds|
    && (t.s.sub == Some(COOLDOWN) ==>
          && t.rounds != [] && t.openedAt[|t.openedAt| - 1] <= |t.arrived|
          && t.since == t.arrived[t.openedAt[|t.openedAt| - 1]..])
  }

  /** Trees produced after `a` arrivals, before any forest. */
  function Produced(cfg: Config, a: nat): nat {
    if a <= cfg.ringBufferSize then 0
    else if a - cfg.ringBufferSize < cfg.localTreeCount then a - cfg.ringBufferSize else cfg.localTreeCount
  }

  /** Before any forest the ring holds the newest points, as long as a tree is still to come from it. */
  ghost predicate Filling(cfg: Config, s: Local, arrived: seq<Point>) {
    var n := Produced(cfg, |arrived|);
    s.forest.None? ==>
      && s.produced.GetOr(0) == n
      && (n < cfg.localTreeCount ==>
            && s.ring.GetOr([]) == Last(arrived, cfg.ringBufferSize)
            && s.countdown == if |arrived| < cfg.ringBufferSize then None else Some(cfg.localTreeCount - n))
  }

  ghost predicate Pools(cfg: Config, t: Trace) {
    Windows(t) && Filling(cfg, t.s, t.arrived) && Pool(cfg, t) && AllSourced(cfg, t)
  }

  // ---------- nothing that happens later changes where a tree came from ----------

  ghost predicate Grows(t: Trace, t': Trace) {
    t.arrived <= t'.arrived && t.rounds <= t'.rounds && t.openedAt <= t'.openedAt
  }

  lemma FirstTreeLater(cfg: Config, t: Trace, t': Trace, m: TreeMsg)
    requires Grows(t, t') && FirstTree(cfg, t, m)
    ensures FirstTree(cfg, t', m)
  {
    SamePart(t.arrived, t'.arrived, 0, cfg.ringBufferSize + 1 + m.slot);
  }

  lemma SamePart<T>(s: seq<T>, s': seq<T>, i: nat, j: nat)
    requires s <= s' && i <= j <= |s|
    ensures s'[i..j] == s[i..j]
  {
  }

  lemma RetrainedInLater(cfg: Config, t: Trace, t': Trace, n: nat, m: TreeMsg)
    requires Grows(t, t') && RetrainedIn(cfg, t, n, m)
    ensures RetrainedIn(cfg, t', n, m)
  {
    SamePart(t.arrived, t'.arrived, t.openedAt[n], t.openedAt[n] + Target(cfg));
  }

  lemma SourcedLater(cfg: Config, t: Trace, t': Trace, m: TreeMsg)
    requires Grows(t, t') && Sourced(cfg, t, m)
    ensures Sourced(cfg, t', m)
  {
    if m.round == 0 {
      FirstTreeLater(cfg, t, t', m);
    } else {
      var n: nat :| RetrainedIn(cfg, t, n, m);
      RetrainedInLater(cfg, t, t', n, m);
    }
  }

  lemma MoreSent(cfg: Config, t: Trace, t': Trace, trees: seq<TreeMsg>)
    requires Grows(t, t') && AllSourced(cfg, t) && t'.sent == t.sent + trees
    requires forall i :: 0 <= i < |trees| ==> Sourced(cfg, t', trees[i])
    ensures AllSourced(cfg, t')
  {
    forall i | 0 <= i < |t'.sent| ensures Sourced(cfg, t', t'.sent[i]) {
      if i < |t.sent| { SourcedLater(cfg, t, t', t.sent[i]); }
    }
  }

  // ---------- the first trees ----------

  /** One element before any forest. */
  lemma TrainStep(cfg: Config, s: Local, arrived: seq<Point>, p: Point)
    requires cfg.ringBufferSize > 0 && s.forest.None? && Filling(cfg, s, arrived)
    ensures var r, n := Train(cfg, s, p), Produced(cfg, |arrived|); var all := arrived + [p];
      && Filling(cfg, r.s, all)
      && if n < cfg.localTreeCount && |arrived| >= cfg.ringBufferSize
         then r.trees == [TreeMsg(cfg.subtask, n, 0, n == cfg.localTreeCount - 1,
                                  TrainOn(cfg, Last(all, cfg.ringBufferSize)))]
         else r.trees == []
  {
    PushLast(arrived, cfg.ringBufferSize, p);
  }

  lemma FirstSourced(cfg: Config, t: Trace, slot: nat, end: bool)
    requires |t.arrived| == cfg.ringBufferSize + 1 + slot
    ensures Sourced(cfg, t, TreeMsg(cfg.subtask, slot, 0, end, TrainOn(cfg, Last(t.arrived, cfg.ringBufferSize))))
  {
    assert t.arrived[..|t.arrived|] == t.arrived;
    TrainOnMeaning(cfg, Last(t.arrived, cfg.ringBufferSize));
  }

  lemma FirstElement(cfg: Config, t: Trace, p: Point, now: int, accept: bool)
    requires cfg.ringBufferSize > 0 && t.s.forest.None? && t.s.sub.None? && Pools(cfg, t)
    ensures Pools(cfg, Next(cfg, t, Element(p, now, accept)))
  {
    var held := t.s.(backlog := t.s.backlog + [p]);
    var r, t', n := Train(cfg, held, p), Next(cfg, t, Element(p, now, accept)), Produced(cfg, |t.arrived|);
    TrainStep(cfg, held, t.arrived, p);
    if n < cfg.localTreeCount && |t.arrived| >= cfg.ringBufferSize {
      FirstSourced(cfg, t', n, n == cfg.localTreeCount - 1);
    }
    MoreSent(cfg, t, t', r.trees);
  }

  // ---------- the retrained trees ----------

  /** An element leaves the operator in COOLDOWN only if it found it there or opened one. */
  lemma CooldownFrom(cfg: Config, t: Trace, p: Point, now: int, accept: bool)
    requires t.s.forest.Some? && Next(cfg, t, Element(p, now, accept)).s.sub == Some(COOLDOWN)
    ensures Opens(t.s) || t.s.sub == Some(COOLDOWN)
  {
  }

  /** The points received by the COOLDOWN this element belongs to. */
  lemma WindowGrows(cfg: Config, t: Trace, p: Point, now: int, accept: bool)
    requires Windows(t) && (Opens(t.s) || t.s.sub == Some(COOLDOWN))
    ensures var t' := Next(cfg, t, Element(p, now, accept)); var last := |t'.openedAt| - 1;
      && last >= 0 && t'.openedAt[last] <= |t'.arrived| && t'.since == t'.arrived[t'.openedAt[last]..]
  {
    var t' := Next(cfg, t, Element(p, now, accept));
    if !Opens(t.s) {
      var a := t.openedAt[|t.openedAt| - 1];
      assert t'.arrived[a..] == t.arrived[a..] + [p];
    }
  }

  /** A batch sent when the last COOLDOWN has received `Target` points. */
  lemma BatchSourced(cfg: Config, t: Trace, round: int)
    requires |t.openedAt| == |t.rounds| > 0 && round == t.rounds[|t.rounds| - 1] && round >= 1
    requires t.openedAt[|t.openedAt| - 1] <= |t.arrived| && |t.since| == Target(cfg)
    requires t.since == t.arrived[t.openedAt[|t.openedAt| - 1]..]
    ensures var b := Batch(cfg, round, Last(t.since, cfg.ringBufferSize));
      forall i :: 0 <= i < |b| ==> Sourced(cfg, t, b[i])
  {
    var b, n := Batch(cfg, round, Last(t.since, cfg.ringBufferSize)), |t.openedAt| - 1;
    var a := t.openedAt[n];
    assert t.arrived[a..a + Target(cfg)] == t.since;
    TrainOnMeaning(cfg, Last(t.since, cfg.ringBufferSize));
    forall i | 0 <= i < |b| ensures Sourced(cfg, t, b[i]) {
      assert RetrainedIn(cfg, t, n, b[i]);
    }
  }

  lemma RetrainElement(cfg: Config, t: Trace, p: Point, now: int, accept: bool)
    requires cfg.policy == D1A && cfg.ringBufferSize > 0 && t.s.forest.Some?
    requires ControlOf(cfg, t) && Windows(t) && Pool(cfg, t) && AllSourced(cfg, t)
    requires var t' := Next(cfg, t, Element(p, now, accept)); ControlOf(cfg, t') && Increasing(t'.rounds)
    ensures var t' := Next(cfg, t, Element(p, now, accept)); Windows(t') && Pool(cfg, t') && AllSourced(cfg, t')
  {
    var t' := Next(cfg, t, Element(p, now, accept));
    PoolElement(cfg, t, p, now, accept);
    if t'.s.sub == Some(COOLDOWN) { CooldownFrom(cfg, t, p, now, accept); }
    if Opens(t.s) || t.s.sub == Some(COOLDOWN) { WindowGrows(cfg, t, p, now, accept); }
    if (Opens(t.s) || t.s.sub == Some(COOLDOWN)) && |t'.since| == Target(cfg) {
      var round := BatchRound(t'.s);
      BatchSourced(cfg, t', round);
      MoreSent(cfg, t, t', Batch(cfg, round, Last(t'.since, cfg.ringBufferSize)));
    } else {
      MoreSent(cfg, t, t', []);
    }
  }

  /** Every event of an operator whose broadcasts arrive in order keeps the provenance of all its trees. */
  lemma PoolsNext(cfg: Config, t: Trace, e: Event)
    requires cfg.policy == D1A && cfg.ringBufferSize > 0
    requires Streams(cfg, t) && InOrder(t.s, e) && Pools(cfg, t)
    ensures Pools(cfg, Next(cfg, t, e))
  {
    StreamsNext(cfg, t, e);
    match e
    case Element(p, now, accept) =>
      if t.s.forest.None? {
        FirstElement(cfg, t, p, now, accept);
      } else {
        RetrainElement(cfg, t, p, now, accept);
        ElementVersion(cfg, t.s, p, now, accept);
      }
    case ForestArrives(f) => MoreSent(cfg, t, Next(cfg, t, e), []);
    case RoundArrives(d) => MoreSent(cfg, t, Next(cfg, t, e), []);
    case Timer(ts) => MoreSent(cfg, t, Next(cfg, t, e), []);
  }
}
