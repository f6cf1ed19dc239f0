/** One step of the scoring operator, as a function of its keyed and broadcast state. */
module LocalModel {
  import opened Messages
  import opened Results
  import opened RingBufferModule

  datatype PauseMode = USE_OLD_FOREST | BACKLOG_THEN_NEW_FOREST
  datatype SubState = STABLE | COOLDOWN | WAITING
  datatype Policy = LEGACY | D1A
  datatype Fill = RINGFULL | COOLDOWNSAMPLES

  datatype Config = Config(subtask: int, localTreeCount: nat, subsampleSize: int, ringBufferSize: nat,
                           cooldownSamples: int, cooldownTimeoutMs: int, policy: Policy, fill: Fill, pause: PauseMode)

  /** Keyed state (None is "not set") and the two broadcast states. */
  datatype Local = Local(
    forest: Option<Forest>, decision: Option<DriftRound>,
    ring: Option<seq<Point>>, countdown: Option<int>, produced: Option<int>, backlog: seq<Point>,
    sub: Option<SubState>, waitingFor: Option<int>, cooldownN: Option<int>, cooldownWrites: Option<int>,
    round: Option<int>, lastDecision: Option<int>, expiry: Option<int>)

  const FRESH := Local(None, None, None, None, None, [], None, None, None, None, None, None, None)

  /** New state, scores emitted and trees sent by one call. */
  datatype Step = Step(s: Local, scores: seq<Scored>, trees: seq<TreeMsg>)

  function Sub(s: Local): SubState { s.sub.GetOr(STABLE) }

  function ScoreAll(ps: seq<Point>, version: int, phase: Phase): (r: seq<Scored>)
    ensures |r| == |ps|
    ensures forall i :: 0 <= i < |ps| ==> r[i] == Scored(ps[i], version, phase)
  {
    seq(|ps|, i requires 0 <= i < |ps| => Scored(ps[i], version, phase))
  }

  // ---------- broadcast side ----------

  function OnForest(s: Local, f: Forest): Local { s.(forest := Some(f)) }

  function OnRound(s: Local, d: DriftRound): Local { s.(decision := Some(d)) }

  // ---------- phase B ----------

  function Train(cfg: Config, s: Local, p: Point): Step {
    var produced := s.produced.GetOr(0);
    if produced >= cfg.localTreeCount then Step(s, [], [])
    else
      var rb := Push(s.ring.GetOr([]), cfg.ringBufferSize, p);
      var s1 := s.(ring := Some(rb));
      if s.countdown.None? then
        Step(s1.(countdown := if |rb| == cfg.ringBufferSize then Some(cfg.localTreeCount) else None), [], [])
      else if s.countdown.value > 0 then
        var c := s.countdown.value - 1;
        Step(s1.(produced := Some(produced + 1), countdown := if c == 0 then None else Some(c)), [],
             [TreeMsg(cfg.subtask, produced, 0, produced == cfg.localTreeCount - 1, TrainOn(cfg, rb))])
      else Step(s1, [], [])
  }

  function TrainOn(cfg: Config, pool: seq<Point>): Trained {
    Trained(multiset(pool), if cfg.subsampleSize < |pool| then cfg.subsampleSize else |pool|)
  }

  /** The tree was drawn from these points, with the configured sample size unless they are fewer. */
  ghost predicate TrainedOn(cfg: Config, tree: Trained, points: seq<Point>) {
    && tree.pool == multiset(points)
    && tree.subsampleSize <= cfg.subsampleSize && tree.subsampleSize <= |points|
    && (tree.subsampleSize == cfg.subsampleSize || tree.subsampleSize == |points|)
  }

  lemma TrainOnMeaning(cfg: Config, points: seq<Point>)
    ensures TrainedOn(cfg, TrainOn(cfg, points), points)
  {
  }

  // ---------- phase C ----------

  /** Phase A: the backlog is scored in order, unless a retraining is under way. */
  function DrainPhaseA(s: Local, version: int): Step {
    if Sub(s) == STABLE && s.backlog != [] then
      Step(s.(backlog := []), ScoreAll(s.backlog, version, Phase.A), [])
    else Step(s, [], [])
  }

  /** Entering COOLDOWN for a round; under D1A the pool starts empty. */
  function Commit(cfg: Config, s: Local, roundId: int, now: int): Local {
    s.(round := Some(roundId), sub := Some(COOLDOWN),
       ring := if cfg.policy == D1A then Some([]) else s.ring,
       cooldownN := Some(0), cooldownWrites := Some(0), expiry := Some(now + cfg.cooldownTimeoutMs))
  }

  /** A COMMITTED decision not processed before opens a COOLDOWN, from whatever sub-state. */
  function ConsumeDecision(cfg: Config, s: Local, now: int): Local {
    if s.decision.Some? && s.decision.value.status == COMMITTED && s.lastDecision != Some(s.decision.value.roundId)
    then Commit(cfg, s, s.decision.value.roundId, now).(lastDecision := Some(s.decision.value.roundId))
    else s
  }

  function Batch(cfg: Config, round: int, pool: seq<Point>): (ms: seq<TreeMsg>)
    ensures |ms| == cfg.localTreeCount
    ensures forall i :: 0 <= i < |ms| ==>
      ms[i] == TreeMsg(cfg.subtask, i, round, i == cfg.localTreeCount - 1, TrainOn(cfg, pool))
  {
    seq(cfg.localTreeCount, i requires 0 <= i =>
      TreeMsg(cfg.subtask, i, round, i == cfg.localTreeCount - 1, TrainOn(cfg, pool)))
  }

  function BatchRound(s: Local): int {
    var r := s.round.GetOr(0);
    if r == 0 then 1 else r
  }

  function Version(s: Local): int {
    if s.forest.Some? then s.forest.value.version else 0
  }

  function LeaveCooldown(s: Local): Local {
    s.(cooldownN := None, cooldownWrites := None, expiry := None)
  }

  /** A full batch of trees from the pool, if there is one; then wait for a newer forest. */
  function Retrain(cfg: Config, s: Local): Step {
    var pool := s.ring.GetOr([]);
    Step(LeaveCooldown(s).(waitingFor := Some(Version(s)), sub := Some(WAITING)), [],
         if pool == [] then [] else Batch(cfg, BatchRound(s), pool))
  }

  predicate FillCondition(cfg: Config, n: int, writes: int) {
    writes >= cfg.ringBufferSize && ((cfg.policy == D1A && cfg.fill == RINGFULL) || n >= cfg.cooldownSamples)
  }

  /** Does COOLDOWN sample number `n` enter the pool?  `accept`: the legacy z-score verdict, asked from the 50th on. */
  predicate Written(cfg: Config, n: int, accept: bool) {
    cfg.policy == D1A || n < 50 || accept
  }

  function Collected(cfg: Config, s: Local, p: Point, accept: bool): Local {
    var n := s.cooldownN.GetOr(0) + 1;
    if Written(cfg, n, accept)
    then s.(cooldownN := Some(n), cooldownWrites := Some(s.cooldownWrites.GetOr(0) + 1),
            ring := Some(Push(s.ring.GetOr([]), cfg.ringBufferSize, p)))
    else s.(cooldownN := Some(n))
  }

  function CooldownElement(cfg: Config, s: Local, p: Point, accept: bool): Step {
    var s1 := Collected(cfg, s, p, accept);
    var n := s1.cooldownN.value;
    if FillCondition(cfg, n, s1.cooldownWrites.GetOr(0)) || n >= cfg.cooldownSamples * 2
    then Retrain(cfg, s1) else Step(s1, [], [])
  }

  /** A strictly newer forest ends the waiting; in backlog mode it scores what was held back. */
  function WaitingElement(cfg: Config, s: Local): Step {
    if s.waitingFor.Some? && Version(s) > s.waitingFor.value then
      var s1 := s.(sub := Some(STABLE), round := None);
      if cfg.pause == BACKLOG_THEN_NEW_FOREST
      then Step(s1.(backlog := []), ScoreAll(s.backlog, Version(s), Phase.C), [])
      else Step(s1, [], [])
    else Step(s, [], [])
  }

  /** Scored at once, or held back during a retraining in backlog mode. */
  function EmitOrHold(cfg: Config, s: Local, p: Point): Step {
    if Sub(s) == STABLE || cfg.pause == USE_OLD_FOREST
    then Step(s, [Scored(p, Version(s), Phase.C)], [])
    else Step(s.(backlog := s.backlog + [p]), [], [])
  }

  function SubStateElement(cfg: Config, s: Local, p: Point, accept: bool): Step {
    match Sub(s)
    case STABLE => Step(s, [], [])
    case COOLDOWN => CooldownElement(cfg, s, p, accept)
    case WAITING => WaitingElement(cfg, s)
  }

  function OnElement(cfg: Config, s: Local, p: Point, now: int, accept: bool): Step {
    if s.forest.None? then Train(cfg, s.(backlog := s.backlog + [p]), p)
    else
      var a := DrainPhaseA(s, Version(s));
      var e := EmitOrHold(cfg, ConsumeDecision(cfg, a.s, now), p);
      var c := SubStateElement(cfg, e.s, p, accept);
      Step(c.s, a.scores + e.scores + c.scores, c.trees)
  }

  // ---------- timer ----------

  /** COOLDOWN given up: the old forest scores what was held back, and the operator is STABLE again. */
  function Abort(cfg: Config, s: Local): Step {
    var drain := cfg.pause == BACKLOG_THEN_NEW_FOREST && s.forest.Some?;
    Step(LeaveCooldown(s).(sub := Some(STABLE), round := None, backlog := if drain then [] else s.backlog),
         if drain then ScoreAll(s.backlog, Version(s), Phase.C) else [], [])
  }

  function OnTimer(cfg: Config, s: Local, timestamp: int): Step {
    if s.sub == Some(COOLDOWN) && s.expiry == Some(timestamp) then Abort(cfg, s) else Step(s, [], [])
  }
}
