/**
  The two output streams of one scoring operator when its broadcasts arrive in order: forests with increasing
  versions and COMMITTED decisions with increasing round ids.
 */
module LocalStreams {
  import opened Messages
  import opened LocalModel
  import opened LocalRuns

  ghost predicate InOrder(s: Local, e: Event) {
    match e
    case ForestArrives(f) => f.version > Version(s)
    case RoundArrives(d) =>
      d.status == COMMITTED && d.roundId > (if s.decision.Some? then s.decision.value.roundId else 0)
    case Element(p, now, accept) => true
    case Timer(ts) => true
  }

  /** Earlier round, or earlier slot of the same round. */
  predicate Before(m: TreeMsg, m': TreeMsg) {
    m.round < m'.round || (m.round == m'.round && m.slot < m'.slot)
  }

  ghost predicate Ordered(sent: seq<TreeMsg>) {
    forall i, j :: 0 <= i < j < |sent| ==> Before(sent[i], sent[j])
  }

  /** Every message is this subtask's, in a known slot, of a round not after `last`. */
  ghost predicate SentBy(cfg: Config, sent: seq<TreeMsg>, last: int) {
    forall i :: 0 <= i < |sent| ==>
      sent[i].subtask == cfg.subtask && 0 <= sent[i].slot < cfg.localTreeCount && 0 <= sent[i].round <= last
  }

  ghost predicate SlotSent(sent: seq<TreeMsg>, round: int, slot: int) {
    exists i :: 0 <= i < |sent| && sent[i].round == round && sent[i].slot == slot
  }

  /** Every retraining round sends all its slots or none. */
  ghost predicate Complete(cfg: Config, sent: seq<TreeMsg>) {
    forall i, k :: 0 <= i < |sent| && sent[i].round >= 1 && 0 <= k < cfg.localTreeCount ==>
      SlotSent(sent, sent[i].round, k)
  }

  ghost predicate Increasing(rounds: seq<int>) {
    && (forall i :: 0 <= i < |rounds| ==> 1 <= rounds[i])
    && (forall i, j :: 0 <= i < j < |rounds| ==> rounds[i] < rounds[j])
  }

  function LastRound(s: Local): int { s.lastDecision.GetOr(0) }

  ghost predicate Decided(s: Local) {
    && (s.decision.Some? ==> s.decision.value.status == COMMITTED && 1 <= s.decision.value.roundId)
    && (s.lastDecision.Some? ==> s.decision.Some? && 1 <= s.lastDecision.value <= s.decision.value.roundId)
  }

  /** The tree stream: rounds and slots only go up, and a COOLDOWN's own round has not been sent yet. */
  ghost predicate Trees(cfg: Config, s: Local, sent: seq<TreeMsg>) {
    && Ordered(sent) && Complete(cfg, sent)
    && SentBy(cfg, sent, if Sub(s) == COOLDOWN then LastRound(s) - 1 else LastRound(s))
    && (s.forest.None? ==> |sent| == s.produced.GetOr(0) && forall i :: 0 <= i < |sent| ==> sent[i].slot == i)
  }

  ghost predicate Streams(cfg: Config, t: Trace) {
    ControlOf(cfg, t) && Decided(t.s) && Increasing(t.rounds) && Trees(cfg, t.s, t.sent)
  }

  lemma ExtendOrdered(cfg: Config, sent: seq<TreeMsg>, round: int, pool: seq<Point>)
    requires Ordered(sent) && Complete(cfg, sent) && SentBy(cfg, sent, round - 1) && round >= 1
    ensures var sent' := sent + Batch(cfg, round, pool);
      Ordered(sent') && Complete(cfg, sent') && SentBy(cfg, sent', round)
  {
    var b := Batch(cfg, round, pool);
    var sent' := sent + b;
    forall i, k | 0 <= i < |sent'| && sent'[i].round >= 1 && 0 <= k < cfg.localTreeCount
      ensures SlotSent(sent', sent'[i].round, k)
    {
      if i < |sent| {
        assert SlotSent(sent, sent[i].round, k);
        var j :| 0 <= j < |sent| && sent[j].round == sent[i].round && sent[j].slot == k;
        assert sent'[j] == sent[j];
      } else {
        assert sent'[|sent| + k] == b[k];
      }
    }
  }

  lemma TrainSends(cfg: Config, s: Local, p: Point, sent: seq<TreeMsg>)
    requires s.forest.None? && s.sub.None? && LastRound(s) == 0 && Trees(cfg, s, sent)
    ensures var r := Train(cfg, s, p); Trees(cfg, r.s, sent + r.trees)
  {
  }

  lemma SubStateSends(cfg: Config, s: Local, p: Point, accept: bool, sent: seq<TreeMsg>)
    requires s.forest.Some? && Decided(s) && Trees(cfg, s, sent)
    requires Sub(s) == COOLDOWN ==> s.round.Some? && s.round == s.lastDecision
    ensures var c := SubStateElement(cfg, s, p, accept); Trees(cfg, c.s, sent + c.trees) && Decided(c.s)
  {
    if Sub(s) == COOLDOWN {
      var c := CooldownElement(cfg, s, p, accept);
      if c.trees != [] {
        var pool :| c.trees == Batch(cfg, BatchRound(s), pool);
        assert BatchRound(s) == LastRound(s);
        ExtendOrdered(cfg, sent, LastRound(s), pool);
        assert Complete(cfg, sent + c.trees);
      } else {
        assert sent + c.trees == sent;
      }
    } else {
      assert sent + [] == sent;
    }
  }

  lemma DecisionSends(cfg: Config, s: Local, now: int, sent: seq<TreeMsg>, entered: int, rounds: seq<int>)
    requires s.forest.Some? && Decided(s) && Trees(cfg, s, sent)
    requires Control(cfg, s, entered, rounds) && Increasing(rounds)
    ensures var d := ConsumeDecision(cfg, s, now);
      && Decided(d) && Trees(cfg, d, sent)
      && (Opens(s) ==> Increasing(rounds + [s.decision.value.roundId]))
  {
  }

  /** The sub-state, the decision and the phase decide what may have been sent; nothing else does. */
  lemma SendsFrame(cfg: Config, s: Local, s': Local, sent: seq<TreeMsg>)
    requires s.forest.Some? && s'.forest.Some? && Sub(s) == Sub(s')
    requires s.lastDecision == s'.lastDecision && s.decision == s'.decision
    ensures Trees(cfg, s, sent) ==> Trees(cfg, s', sent)
    ensures Decided(s) ==> Decided(s')
  {
  }

  lemma BeforeSubState(cfg: Config, t: Trace, p: Point, now: int)
    requires Streams(cfg, t) && t.s.forest.Some?
    ensures var e := AtSubState(cfg, t.s, p, now);
      && e.forest.Some? && Decided(e) && Trees(cfg, e, t.sent)
      && (Sub(e) == COOLDOWN ==> e.round.Some? && e.round == e.lastDecision)
    ensures Opens(t.s) ==> Increasing(t.rounds + [t.s.decision.value.roundId])
  {
    var a := DrainPhaseA(t.s, Version(t.s)).s;
    assert Control(cfg, a, t.entered, t.rounds) && Opens(a) == Opens(t.s);
    SendsFrame(cfg, t.s, a, t.sent);
    DecisionSends(cfg, a, now, t.sent, t.entered, t.rounds);
    var d := ConsumeDecision(cfg, a, now);
    SendsFrame(cfg, d, EmitOrHold(cfg, d, p).s, t.sent);
  }

  lemma ElementSends(cfg: Config, t: Trace, p: Point, now: int, accept: bool)
    requires Streams(cfg, t) && ControlOf(cfg, Next(cfg, t, Element(p, now, accept)))
    ensures Streams(cfg, Next(cfg, t, Element(p, now, accept)))
  {
    if t.s.forest.None? {
      TrainSends(cfg, t.s.(backlog := t.s.backlog + [p]), p, t.sent);
    } else {
      var e := AtSubState(cfg, t.s, p, now);
      BeforeSubState(cfg, t, p, now);
      SubStateSends(cfg, e, p, accept, t.sent);
    }
  }

  /** Every event that respects the arrival order keeps both streams in order. */
  lemma StreamsNext(cfg: Config, t: Trace, e: Event)
    requires Streams(cfg, t) && InOrder(t.s, e)
    ensures Streams(cfg, Next(cfg, t, e))
  {
    ControlNext(cfg, t, e);
    match e
    case Element(p, now, accept) => ElementSends(cfg, t, p, now, accept);
    case ForestArrives(f) =>
    case RoundArrives(d) =>
    case Timer(ts) => assert t.sent + [] == t.sent;
  }

  // ---------- versions of the emitted scores ----------

  /** Versions start at 1, never decrease, and do not run ahead of the forest in force. */
  ghost predicate VersionsUp(s: Local, scores: seq<Scored>) {
    && (s.forest.Some? ==> Version(s) >= 1)
    && (forall i :: 0 <= i < |scores| ==> 1 <= scores[i].version <= Version(s))
    && (forall i, j :: 0 <= i < j < |scores| ==> scores[i].version <= scores[j].version)
  }

  ghost predicate AllOf(scores: seq<Scored>, version: int) {
    forall i :: 0 <= i < |scores| ==> scores[i].version == version
  }

  /** An element is scored under the forest in force, and does not change it. */
  lemma ElementVersion(cfg: Config, s: Local, p: Point, now: int, accept: bool)
    ensures var r := OnElement(cfg, s, p, now, accept);
      AllOf(r.scores, Version(s)) && r.s.forest == s.forest && (s.forest.None? ==> r.scores == [])
  {
    if s.forest.Some? {
      var a := DrainPhaseA(s, Version(s));
      var e := EmitOrHold(cfg, ConsumeDecision(cfg, a.s, now), p);
      assert AllOf(a.scores, Version(s)) && AllOf(e.scores, Version(s));
      assert e.s.forest == s.forest;
      SubStateVersion(cfg, e.s, p, accept);
    }
  }

  lemma SubStateVersion(cfg: Config, s: Local, p: Point, accept: bool)
    ensures var c := SubStateElement(cfg, s, p, accept); AllOf(c.scores, Version(s)) && c.s.forest == s.forest
  {
  }

  lemma TimerVersion(cfg: Config, s: Local, timestamp: int)
    ensures var r := OnTimer(cfg, s, timestamp);
      AllOf(r.scores, Version(s)) && r.s.forest == s.forest && (s.forest.None? ==> r.scores == [])
  {
  }

  /** More scores under the forest in force. */
  lemma VersionsMore(s: Local, s': Local, scores: seq<Scored>, more: seq<Scored>)
    requires VersionsUp(s, scores) && s'.forest == s.forest && AllOf(more, Version(s))
    requires s.forest.None? ==> more == []
    ensures VersionsUp(s', scores + more)
  {
  }

  /** The forest version on the output never decreases. */
  lemma VersionsNext(cfg: Config, t: Trace, e: Event)
    requires VersionsUp(t.s, t.scores) && InOrder(t.s, e)
    ensures VersionsUp(Next(cfg, t, e).s, Next(cfg, t, e).scores)
  {
    match e
    case Element(p, now, accept) =>
      var r := OnElement(cfg, t.s, p, now, accept);
      ElementVersion(cfg, t.s, p, now, accept);
      VersionsMore(t.s, r.s, t.scores, r.scores);
    case ForestArrives(f) =>
    case RoundArrives(d) =>
    case Timer(ts) =>
      var r := OnTimer(cfg, t.s, ts);
      TimerVersion(cfg, t.s, ts);
      VersionsMore(t.s, r.s, t.scores, r.scores);
  }
}
