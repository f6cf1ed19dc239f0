/**
  What every step of the scoring operator does, in terms of its past, under either COOLDOWN policy and in either
  pause mode: where its sub-state goes, what it scores and holds back, what it trains on and sends.
 */
module LocalLaws {
  import opened Messages
  import opened Results
  import opened RingBufferModule
  import opened LocalModel
  import opened LocalRuns

  // ---------- the terms of the laws ----------

  /** An element that opens a COOLDOWN or finds one. */
  predicate InCooldown(s: Local) {
    Opens(s) || Sub(s) == COOLDOWN
  }

  /**
    A COOLDOWN of `n` samples, `taken` of which entered the pool, is over: the ring has been overwritten and, except
    when filling it is enough, the full number of samples has been seen; or twice that number has been seen.
   */
  predicate Due(cfg: Config, n: nat, taken: nat) {
    || n >= 2 * cfg.cooldownSamples
    || (taken >= cfg.ringBufferSize && (n >= cfg.cooldownSamples || (cfg.policy == D1A && cfg.fill == RINGFULL)))
  }

  /** One tree for every slot, the last one marked. */
  ghost predicate FullBatch(cfg: Config, ms: seq<TreeMsg>, round: int, points: seq<Point>) {
    && |ms| == cfg.localTreeCount
    && forall i :: 0 <= i < |ms| ==>
         && ms[i].subtask == cfg.subtask && ms[i].slot == i && ms[i].round == round
         && (ms[i].batchEnd <==> i == cfg.localTreeCount - 1)
         && TrainedOn(cfg, ms[i].tree, points)
  }

  /** The round a retraining answers to. */
  function RoundToSend(rounds: seq<int>): int {
    if rounds == [] || rounds[|rounds| - 1] == 0 then 1 else rounds[|rounds| - 1]
  }

  /** What the fields say of the past. */
  ghost predicate Ledger(cfg: Config, t: Trace) {
    && t.s.ring.GetOr([]) == Last(t.written, cfg.ringBufferSize)
    && (t.s.forest.None? ==> t.s.produced.GetOr(0) == |t.sent|)
    && (t.s.sub == Some(COOLDOWN) ==>
          && t.s.cooldownN == Some(|t.since|) && t.s.cooldownWrites == Some(t.taken)
          && t.written != [] && !Due(cfg, |t.since|, t.taken))
    && (t.s.sub == Some(WAITING) ==> t.s.waitingFor == Some(t.under))
  }

  // ---------- the sub-state and the trees ----------

  /** Where an element leaves the operator. */
  ghost function SubAfter(cfg: Config, t: Trace, n: nat, taken: nat): SubState {
    if InCooldown(t.s) then if Due(cfg, n, taken) then WAITING else COOLDOWN
    else if Sub(t.s) == WAITING && Version(t.s) <= t.under then WAITING
    else STABLE
  }

  /** What an element sends: a full batch for the round of the COOLDOWN it ends, and nothing otherwise. */
  ghost predicate SendsAsDue(cfg: Config, t: Trace, t': Trace) {
    && t.sent <= t'.sent
    && if InCooldown(t.s) && Due(cfg, |t'.since|, t'.taken)
       then FullBatch(cfg, t'.sent[|t.sent|..], RoundToSend(t'.rounds), Last(t'.written, cfg.ringBufferSize))
       else t'.sent == t.sent
  }

  /** The pool and the counters with which the element reaches the sub-state handler. */
  ghost predicate Reached(cfg: Config, t: Trace, e: Local) {
    && e.forest == t.s.forest && e.waitingFor == t.s.waitingFor
    && (Sub(e) == COOLDOWN <==> InCooldown(t.s)) && (Sub(e) == COOLDOWN ==> e.sub == Some(COOLDOWN))
    && (!InCooldown(t.s) ==> Sub(e) == Sub(t.s) && e.sub == t.s.sub)
    && e.ring.GetOr([]) == Last(Pooled(cfg, t), cfg.ringBufferSize)
    && (InCooldown(t.s) ==> e.cooldownN == Some(|SoFar(t)|) && e.cooldownWrites == Some(TakenSoFar(t)))
  }

  ghost function TakenSoFar(t: Trace): nat {
    if Opens(t.s) then 0 else t.taken
  }

  /** The points in the pool before the element, a COMMITTED it consumes having emptied it under D1A. */
  ghost function Pooled(cfg: Config, t: Trace): seq<Point> {
    if Opens(t.s) && cfg.policy == D1A then [] else t.written
  }

  lemma Arrives(cfg: Config, t: Trace, p: Point, now: int)
    requires ControlOf(cfg, t) && Ledger(cfg, t) && t.s.forest.Some?
    ensures Reached(cfg, t, AtSubState(cfg, t.s, p, now))
  {
  }

  /** One more sample in the pool, or none. */
  lemma Collects(cfg: Config, s: Local, p: Point, accept: bool, n: nat, taken: nat, written: seq<Point>)
    requires s.cooldownN == Some(n) && s.cooldownWrites == Some(taken)
    requires s.ring.GetOr([]) == Last(written, cfg.ringBufferSize)
    ensures var c := Collected(cfg, s, p, accept); var enters := Enters(cfg, n + 1, accept);
      && c.cooldownN == Some(n + 1) && c.cooldownWrites == Some(if enters then taken + 1 else taken)
      && c.ring.GetOr([]) == Last(if enters then written + [p] else written, cfg.ringBufferSize)
      && c.sub == s.sub && c.round == s.round && c.forest == s.forest && c.backlog == s.backlog
  {
    PushLast(written, cfg.ringBufferSize, p);
  }

  lemma BatchMeaning(cfg: Config, round: int, points: seq<Point>)
    ensures FullBatch(cfg, Batch(cfg, round, points), round, points)
  {
    TrainOnMeaning(cfg, points);
  }

  /** The step of a COOLDOWN element, with the samples, the writes and the pool it makes. */
  ghost predicate Outcome(cfg: Config, s: Local, c: Step, n: nat, taken: nat, written: seq<Point>, round: int) {
    && written != [] && c.s.ring.GetOr([]) == Last(written, cfg.ringBufferSize) && c.s.forest == s.forest
    && if Due(cfg, n, taken)
       then c.s.sub == Some(WAITING) && c.s.waitingFor == Some(Version(s))
            && FullBatch(cfg, c.trees, round, Last(written, cfg.ringBufferSize))
       else c.s.sub == Some(COOLDOWN) && c.trees == []
            && c.s.cooldownN == Some(n) && c.s.cooldownWrites == Some(taken)
  }

  /** One COOLDOWN sample. */
  lemma CooldownLaw(cfg: Config, s: Local, p: Point, accept: bool, n: nat, taken: nat, written: seq<Point>)
    requires cfg.ringBufferSize > 0 && s.sub == Some(COOLDOWN)
    requires s.cooldownN == Some(n) && s.cooldownWrites == Some(taken)
    requires s.ring.GetOr([]) == Last(written, cfg.ringBufferSize) && (n == 0 || written != [])
    ensures var enters := Enters(cfg, n + 1, accept);
      Outcome(cfg, s, SubStateElement(cfg, s, p, accept), n + 1, if enters then taken + 1 else taken,
              if enters then written + [p] else written, BatchRound(s))
  {
    Collects(cfg, s, p, accept, n, taken, written);
    BatchMeaning(cfg, BatchRound(s), Last(if Enters(cfg, n + 1, accept) then written + [p] else written,
      cfg.ringBufferSize));
  }

  /** The trace after an element of a COOLDOWN. */
  ghost predicate Counted(cfg: Config, t: Trace, t': Trace, p: Point, accept: bool) {
    var enters := Enters(cfg, |SoFar(t)| + 1, accept);
    && t'.since == SoFar(t) + [p]
    && t'.taken == (if enters then TakenSoFar(t) + 1 else TakenSoFar(t))
    && t'.written == (if enters then Pooled(cfg, t) + [p] else Pooled(cfg, t))
    && t'.rounds == if Opens(t.s) then t.rounds + [t.s.decision.value.roundId] else t.rounds
  }

  lemma CountedElement(cfg: Config, t: Trace, p: Point, now: int, accept: bool)
    requires InCooldown(t.s) && t.s.forest.Some? && (t.s.sub == Some(COOLDOWN) || Opens(t.s))
    ensures Counted(cfg, t, Next(cfg, t, Element(p, now, accept)), p, accept)
  {
    assert [] + [p] == [p];
  }

  /** The round the operator would send for is the last one opened. */
  lemma RoundAtHandler(cfg: Config, t: Trace, p: Point, now: int, accept: bool)
    requires ControlOf(cfg, t) && t.s.forest.Some? && InCooldown(t.s)
    ensures var t' := Next(cfg, t, Element(p, now, accept));
      BatchRound(AtSubState(cfg, t.s, p, now)) == RoundToSend(t'.rounds)
  {
  }

  lemma StepOf(cfg: Config, t: Trace, p: Point, now: int, accept: bool)
    requires t.s.forest.Some?
    ensures var t' := Next(cfg, t, Element(p, now, accept));
      var c := SubStateElement(cfg, AtSubState(cfg, t.s, p, now), p, accept);
      && t'.s == c.s && t'.sent == t.sent + c.trees
      && t'.under == (if c.s.sub == Some(WAITING) && (t.s.sub != Some(WAITING) || Opens(t.s))
                      then Version(t.s) else t.under)
      && (!InCooldown(t.s) ==> t'.since == t.since && t'.taken == t.taken && t'.written == t.written)
  {
  }

  lemma FromOutcome(cfg: Config, t: Trace, t': Trace, e: Local, c: Step)
    requires InCooldown(t.s) && t.s.forest.Some? && e.forest == t.s.forest
    requires t'.s == c.s && t'.sent == t.sent + c.trees
    requires c.s.sub == Some(WAITING) ==> t'.under == Version(t.s)
    requires Outcome(cfg, e, c, |t'.since|, t'.taken, t'.written, RoundToSend(t'.rounds))
    ensures Ledger(cfg, t') && SendsAsDue(cfg, t, t')
    ensures Sub(t'.s) == if Due(cfg, |t'.since|, t'.taken) then WAITING else COOLDOWN
  {
    assert t'.sent[|t.sent|..] == c.trees;
  }

  lemma OutcomeCounted(cfg: Config, t: Trace, t': Trace, e: Local, c: Step, p: Point, accept: bool)
    requires Counted(cfg, t, t', p, accept) && BatchRound(e) == RoundToSend(t'.rounds)
    requires var enters := Enters(cfg, |SoFar(t)| + 1, accept);
      Outcome(cfg, e, c, |SoFar(t)| + 1, if enters then TakenSoFar(t) + 1 else TakenSoFar(t),
              if enters then Pooled(cfg, t) + [p] else Pooled(cfg, t), BatchRound(e))
    ensures Outcome(cfg, e, c, |t'.since|, t'.taken, t'.written, RoundToSend(t'.rounds))
  {
  }

  lemma FromHandler(cfg: Config, t: Trace, t': Trace, e: Local, p: Point, accept: bool)
    requires cfg.ringBufferSize > 0 && Ledger(cfg, t) && InCooldown(t.s) && Reached(cfg, t, e)
    requires t.s.sub == Some(COOLDOWN) || Opens(t.s)
    requires Counted(cfg, t, t', p, accept) && BatchRound(e) == RoundToSend(t'.rounds)
    ensures Outcome(cfg, e, SubStateElement(cfg, e, p, accept), |t'.since|, t'.taken, t'.written,
                    RoundToSend(t'.rounds))
  {
    CooldownLaw(cfg, e, p, accept, |SoFar(t)|, TakenSoFar(t), Pooled(cfg, t));
    OutcomeCounted(cfg, t, t', e, SubStateElement(cfg, e, p, accept), p, accept);
  }

  lemma Handled(cfg: Config, t: Trace, t': Trace, p: Point, now: int, accept: bool) returns (e: Local, c: Step)
    requires cfg.ringBufferSize > 0 && ControlOf(cfg, t) && Ledger(cfg, t) && t.s.forest.Some? && InCooldown(t.s)
    requires t' == Next(cfg, t, Element(p, now, accept))
    ensures e.forest == t.s.forest && c == SubStateElement(cfg, AtSubState(cfg, t.s, p, now), p, accept)
    ensures Outcome(cfg, e, c, |t'.since|, t'.taken, t'.written, RoundToSend(t'.rounds))
  {
    e := AtSubState(cfg, t.s, p, now);
    c := SubStateElement(cfg, e, p, accept);
    Arrives(cfg, t, p, now);
    CountedElement(cfg, t, p, now, accept);
    RoundAtHandler(cfg, t, p, now, accept);
    FromHandler(cfg, t, t', e, p, accept);
  }

  lemma CooldownElementLaw(cfg: Config, t: Trace, p: Point, now: int, accept: bool)
    requires cfg.ringBufferSize > 0 && ControlOf(cfg, t) && Ledger(cfg, t) && t.s.forest.Some? && InCooldown(t.s)
    ensures var t' := Next(cfg, t, Element(p, now, accept));
      && Ledger(cfg, t') && SendsAsDue(cfg, t, t')
      && Sub(t'.s) == if Due(cfg, |t'.since|, t'.taken) then WAITING else COOLDOWN
  {
    var t' := Next(cfg, t, Element(p, now, accept));
    var e, c := Handled(cfg, t, t', p, now, accept);
    StepOf(cfg, t, p, now, accept);
    FromOutcome(cfg, t, t', e, c);
  }

  lemma OtherElementLaw(cfg: Config, t: Trace, p: Point, now: int, accept: bool)
    requires ControlOf(cfg, t) && Ledger(cfg, t) && t.s.forest.Some? && !InCooldown(t.s)
    ensures var t' := Next(cfg, t, Element(p, now, accept));
      && Ledger(cfg, t') && t'.sent == t.sent
      && Sub(t'.s) == if Sub(t.s) == WAITING && Version(t.s) <= t.under then WAITING else STABLE
  {
    Arrives(cfg, t, p, now);
    StepOf(cfg, t, p, now, accept);
    assert t.sent + [] == t.sent;
  }

  /**
    An element that opens or finds a COOLDOWN leaves the operator WAITING when the COOLDOWN is over by then, having
    sent a full batch from the newest points of the pool, and in COOLDOWN otherwise; one that finds it WAITING leaves
    it so until a forest newer than the one at the retraining is in force.
   */
  lemma ElementLaw(cfg: Config, t: Trace, p: Point, now: int, accept: bool)
    requires cfg.ringBufferSize > 0 && ControlOf(cfg, t) && Ledger(cfg, t) && t.s.forest.Some?
    ensures var t' := Next(cfg, t, Element(p, now, accept));
      && Ledger(cfg, t') && SendsAsDue(cfg, t, t') && Sub(t'.s) == SubAfter(cfg, t, |t'.since|, t'.taken)
  {
    if InCooldown(t.s) {
      CooldownElementLaw(cfg, t, p, now, accept);
    } else {
      OtherElementLaw(cfg, t, p, now, accept);
    }
  }

  /** Before any forest an element only feeds the pool, as long as trees are still to come. */
  lemma FirstElementLaw(cfg: Config, t: Trace, p: Point, now: int, accept: bool)
    requires ControlOf(cfg, t) && Ledger(cfg, t) && t.s.forest.None?
    ensures Ledger(cfg, Next(cfg, t, Element(p, now, accept)))
  {
    PushLast(t.written, cfg.ringBufferSize, p);
  }

  lemma LedgerNext(cfg: Config, t: Trace, e: Event)
    requires cfg.ringBufferSize > 0 && ControlOf(cfg, t) && Ledger(cfg, t)
    ensures Ledger(cfg, Next(cfg, t, e))
  {
    match e
    case Element(p, now, accept) =>
      if t.s.forest.Some? {
        ElementLaw(cfg, t, p, now, accept);
      } else {
        FirstElementLaw(cfg, t, p, now, accept);
      }
    case ForestArrives(f) =>
    case RoundArrives(d) =>
    case Timer(ts) =>
  }

  /** Over every run, under either policy: the pool is the newest of the points written to it; the counters count. */
  lemma {:induction false} LedgerAlways(cfg: Config, es: seq<Event>)
    requires cfg.ringBufferSize > 0
    ensures ControlOf(cfg, Run(cfg, START, es)) && Ledger(cfg, Run(cfg, START, es))
  {
    ExactlyOnceInOrder(cfg, es);
    if es == [] {
    } else {
      LedgerAlways(cfg, es[..|es| - 1]);
      LedgerNext(cfg, Run(cfg, START, es[..|es| - 1]), es[|es| - 1]);
    }
  }

  /**
    WAITING is left only on an element: into another COOLDOWN if it consumes a COMMITTED, and otherwise to STABLE
    exactly when the forest in force is strictly newer than the one under which WAITING was entered.
   */
  lemma WaitingEnds(cfg: Config, t: Trace, e: Event)
    requires cfg.ringBufferSize > 0 && ControlOf(cfg, t) && Ledger(cfg, t) && Sub(t.s) == WAITING
    ensures var t' := Next(cfg, t, e);
      if !e.Element? then Sub(t'.s) == WAITING && t'.under == t.under
      else if Opens(t.s) then Sub(t'.s) != STABLE
      else Sub(t'.s) == (if Version(t.s) > t.under then STABLE else WAITING) && t'.under == t.under
  {
    match e
    case Element(p, now, accept) =>
      ElementLaw(cfg, t, p, now, accept);
      StepOf(cfg, t, p, now, accept);
    case ForestArrives(f) =>
    case RoundArrives(d) =>
    case Timer(ts) =>
  }

  // ---------- the scores ----------

  /** The points scored at once with an element that has been through phase A. */
  ghost function ScoredNow(cfg: Config, t: Trace, p: Point, after: SubState): seq<Point> {
    if cfg.pause == USE_OLD_FOREST || (Sub(t.s) == STABLE && !Opens(t.s)) then [p]
    else if after == STABLE then t.s.backlog + [p]
    else []
  }

  /** The points held back after an element. */
  ghost function HeldBack(cfg: Config, t: Trace, p: Point, after: SubState): seq<Point> {
    if cfg.pause == USE_OLD_FOREST || after == STABLE then []
    else (if Sub(t.s) == STABLE then [] else t.s.backlog) + [p]
  }

  /**
    In STABLE what was held back is scored first.  The point itself is scored at once in STABLE or under the old
    forest; otherwise it is held back, and with all before it scored when the operator gets back to STABLE.
   */
  lemma ScoresLaw(cfg: Config, t: Trace, p: Point, now: int, accept: bool)
    requires ControlOf(cfg, t) && t.s.forest.Some?
    ensures var t' := Next(cfg, t, Element(p, now, accept));
      && t'.scores == t.scores + (ScoreAll(if Sub(t.s) == STABLE then t.s.backlog else [], Version(t.s), Phase.A)
                                  + ScoreAll(ScoredNow(cfg, t, p, Sub(t'.s)), Version(t.s), Phase.C))
      && t'.s.backlog == HeldBack(cfg, t, p, Sub(t'.s))
  {
    var a := DrainPhaseA(t.s, Version(t.s));
    var d := ConsumeDecision(cfg, a.s, now);
    var e := EmitOrHold(cfg, d, p);
    var c := SubStateElement(cfg, e.s, p, accept);
    var t' := Next(cfg, t, Element(p, now, accept));
    assert t'.scores == t.scores + (a.scores + e.scores + c.scores);
    assert t'.s == c.s;
    Emission(cfg, t, a, d, e, p, now);
    Draining(cfg, e.s, p, accept);
  }

  lemma Emission(cfg: Config, t: Trace, a: Step, d: Local, e: Step, p: Point, now: int)
    requires ControlOf(cfg, t) && t.s.forest.Some?
    requires a == DrainPhaseA(t.s, Version(t.s)) && d == ConsumeDecision(cfg, a.s, now) && e == EmitOrHold(cfg, d, p)
    ensures a.scores == ScoreAll(if Sub(t.s) == STABLE then t.s.backlog else [], Version(t.s), Phase.A)
    ensures Version(e.s) == Version(t.s)
    ensures Sub(e.s) == if Opens(t.s) then COOLDOWN else Sub(t.s)
    ensures if cfg.pause == USE_OLD_FOREST || Sub(e.s) == STABLE
            then e.scores == ScoreAll([p], Version(t.s), Phase.C) && e.s.backlog == []
            else e.scores == [] && e.s.backlog == (if Sub(t.s) == STABLE then [] else t.s.backlog) + [p]
  {
  }

  lemma Draining(cfg: Config, s: Local, p: Point, accept: bool)
    ensures var c := SubStateElement(cfg, s, p, accept);
      if Sub(s) == WAITING && Sub(c.s) == STABLE && cfg.pause == BACKLOG_THEN_NEW_FOREST
      then c.scores == ScoreAll(s.backlog, Version(s), Phase.C) && c.s.backlog == []
      else c.scores == [] && c.s.backlog == s.backlog && (Sub(c.s) == STABLE ==> Sub(s) != COOLDOWN)
  {
  }

  /** A COOLDOWN given up: everything held back is scored under the forest in force, nothing is trained or sent. */
  lemma TimerLaw(cfg: Config, t: Trace, ts: int)
    requires ControlOf(cfg, t)
    ensures var t' := Next(cfg, t, Timer(ts));
      if t.s.sub == Some(COOLDOWN) && ts == t.entered + cfg.cooldownTimeoutMs
      then Sub(t'.s) == STABLE && t'.s.backlog == [] && t'.s.ring == t.s.ring && t'.sent == t.sent
           && t'.scores == t.scores + ScoreAll(t.s.backlog, Version(t.s), Phase.C)
      else t' == t
  {
  }
}
