/** The scoring operator, with its keyed state, broadcast state and ring buffer updated in place. */
module LocalProcessor {
  import opened Messages
  import opened Results
  import opened RingBufferModule
  import opened LocalModel

  lemma Regroup<T>(w: seq<T>, x: seq<T>, y: seq<T>, z: seq<T>)
    ensures w + x + (y + z) == w + (x + y + z)
    ensures w + y + z == w + (y + z)
  {
  }

  class LocalProcessorFunction {
    const cfg: Config

    // broadcast state
    var forest: Option<Forest>
    var decision: Option<DriftRound>
    // keyed state
    var ringBuffer: RingBuffer?<Point>
    var trainStartCountdown: Option<int>
    var treesProduced: Option<int>
    var backlog: seq<Point>
    var subState: Option<SubState>
    var waitingForVersion: Option<int>
    var cooldownN: Option<int>
    var cooldownWrites: Option<int>
    var currentRoundId: Option<int>
    var lastProcessedDecision: Option<int>
    var cooldownTimerExpiry: Option<int>
    // collectors
    var scores: seq<Scored>
    var trees: seq<TreeMsg>

    ghost function RingRepr(): set<object>
      reads `ringBuffer
    {
      if ringBuffer == null then {} else {ringBuffer, ringBuffer.buffer}
    }

    ghost predicate Valid()
      reads `ringBuffer, RingRepr()
    {
      && cfg.ringBufferSize > 0
      && this !in RingRepr()
      && (ringBuffer != null ==> ringBuffer.Valid() && ringBuffer.capacity == cfg.ringBufferSize)
    }

    ghost function State(): Local
      reads this, ringBuffer
    {
      Local(forest, decision, if ringBuffer == null then None else Some(ringBuffer.Contents),
            trainStartCountdown, treesProduced, backlog, subState, waitingForVersion, cooldownN, cooldownWrites,
            currentRoundId, lastProcessedDecision, cooldownTimerExpiry)
    }

    constructor (cfg: Config)
      requires cfg.ringBufferSize > 0
      ensures Valid() && State() == FRESH && scores == [] && trees == [] && this.cfg == cfg
    {
      this.cfg := cfg;
      forest, decision, ringBuffer, trainStartCountdown, treesProduced, backlog := None, None, null, None, None, [];
      subState, waitingForVersion, cooldownN, cooldownWrites := None, None, None, None;
      currentRoundId, lastProcessedDecision, cooldownTimerExpiry, scores, trees := None, None, None, [], [];
    }

    /** The new state and the outputs of a call, against a step of the model. */
    twostate predicate Did(r: Step)
      reads this, RingRepr()
    {
      && Valid() && State() == r.s
      && scores == old(scores) + r.scores && trees == old(trees) + r.trees
    }

    method ReceiveForest(f: Forest)
      requires Valid()
      modifies `forest
      ensures Did(Step(OnForest(old(State()), f), [], []))
    {
      forest := Some(f);
    }

    method ReceiveRound(d: DriftRound)
      requires Valid()
      modifies `decision
      ensures Did(Step(OnRound(old(State()), d), [], []))
    {
      decision := Some(d);
    }

    /** Scores every point of the backlog in order and empties it. */
    method Drain(version: int, phase: Phase)
      requires Valid()
      modifies `scores, `backlog
      ensures Did(Step(old(State()).(backlog := []), ScoreAll(old(backlog), version, phase), []))
      ensures RingRepr() == old(RingRepr())
    {
      for i := 0 to |backlog|
        invariant Valid() && State() == old(State()) && trees == old(trees)
        invariant scores == old(scores) + ScoreAll(old(backlog)[..i], version, phase)
        invariant ringBuffer == old(ringBuffer)
      {
        scores := scores + [Scored(backlog[i], version, phase)];
      }
      assert old(backlog)[..|old(backlog)|] == old(backlog);
      backlog := [];
    }

    method WriteToRingBuffer(p: Point)
      requires Valid()
      modifies `ringBuffer, RingRepr()
      ensures Did(Step(old(State()).(ring := Some(Push(old(State()).ring.GetOr([]), cfg.ringBufferSize, p))), [], []))
      ensures fresh(RingRepr() - old(RingRepr())) && ringBuffer != null
    {
      if ringBuffer == null {
        ringBuffer := new RingBuffer(cfg.ringBufferSize, p);
      }
      ringBuffer.Add(p);
    }

    /** Phase B: the ring buffer fills, then one tree per element until the quota is met. */
    method TrainIfReady(point: Point)
      requires Valid()
      modifies `ringBuffer, `trainStartCountdown, `treesProduced, `trees, RingRepr()
      ensures Did(Train(cfg, old(State()), point))
      ensures fresh(RingRepr() - old(RingRepr()))
    {
      var produced := treesProduced.GetOr(0);
      if produced >= cfg.localTreeCount { return; }
      WriteToRingBuffer(point);
      if trainStartCountdown.None? {
        if ringBuffer.IsFull() {
          trainStartCountdown := Some(cfg.localTreeCount);
        }
        return;
      }
      var countdown := trainStartCountdown.value;
      if countdown > 0 {
        var tree := BuildFromRing();
        trees := trees + [TreeMsg(cfg.subtask, produced, 0, produced == cfg.localTreeCount - 1, tree)];
        treesProduced := Some(produced + 1);
        trainStartCountdown := if countdown - 1 == 0 then None else Some(countdown - 1);
      }
    }

    /** A tree from a snapshot of the ring buffer. */
    method BuildFromRing() returns (tree: Trained)
      requires Valid() && ringBuffer != null
      ensures tree == TrainOn(cfg, ringBuffer.Contents)
    {
      var snapshot := ringBuffer.Snapshot();
      tree := TrainOn(cfg, snapshot);
    }

    /** Under D1A the pool starts empty. */
    method ResetPool()
      requires Valid()
      modifies `ringBuffer
      ensures Valid() && fresh(RingRepr() - old(RingRepr()))
      ensures State() == old(State()).(ring := if cfg.policy == D1A then Some([]) else old(State()).ring)
    {
      if cfg.policy == D1A {
        ringBuffer := new RingBuffer(cfg.ringBufferSize, Point(0, [], 0));
      }
    }

    /** A COMMITTED decision: remember its round, enter COOLDOWN, set its timer. */
    method HandleCommitted(roundId: int, now: int)
      requires Valid()
      modifies `currentRoundId, `subState, `ringBuffer, `cooldownN, `cooldownWrites, `cooldownTimerExpiry
      ensures Did(Step(Commit(cfg, old(State()), roundId, now), [], []))
      ensures fresh(RingRepr() - old(RingRepr()))
    {
      StartCooldown(roundId, now + cfg.cooldownTimeoutMs);
      ResetPool();
    }

    method StartCooldown(roundId: int, expiry: int)
      modifies `currentRoundId, `subState, `cooldownN, `cooldownWrites, `cooldownTimerExpiry
      ensures currentRoundId == Some(roundId) && subState == Some(COOLDOWN)
      ensures cooldownN == cooldownWrites == Some(0) && cooldownTimerExpiry == Some(expiry)
    {
      currentRoundId := Some(roundId);
      subState := Some(COOLDOWN);
      cooldownN := Some(0);
      cooldownWrites := Some(0);
      cooldownTimerExpiry := Some(expiry);
    }

    /** Counters and timer of a COOLDOWN are cleared on leaving it. */
    method EndCooldown(next: SubState)
      modifies `subState, `cooldownN, `cooldownWrites, `cooldownTimerExpiry
      ensures subState == Some(next) && cooldownN == cooldownWrites == cooldownTimerExpiry == None
    {
      subState := Some(next);
      cooldownN, cooldownWrites, cooldownTimerExpiry := None, None, None;
    }

    /** One full batch from the pool, if there is one. */
    method SendBatch(round: int)
      requires Valid()
      modifies `trees
      ensures var pool := State().ring.GetOr([]);
        trees == old(trees) + if pool == [] then [] else Batch(cfg, round, pool)
    {
      if ringBuffer != null && ringBuffer.size != 0 {
        var pool := ringBuffer.Snapshot();
        ghost var batch := Batch(cfg, round, ringBuffer.Contents);
        for slot := 0 to cfg.localTreeCount
          invariant trees == old(trees) + batch[..slot]
        {
          var tree := TrainOn(cfg, pool);
          trees := trees + [TreeMsg(cfg.subtask, slot, round, slot == cfg.localTreeCount - 1, tree)];
        }
        assert batch[..cfg.localTreeCount] == batch;
      }
    }

    /** One full batch from the pool under the current round, then WAITING for a newer forest. */
    method RetrainAndEnterWaiting()
      requires Valid()
      modifies `trees, `waitingForVersion, `subState, `cooldownN, `cooldownWrites, `cooldownTimerExpiry
      ensures Did(Retrain(cfg, old(State()))) && RingRepr() == old(RingRepr())
    {
      var globalRound := currentRoundId.GetOr(0);
      if globalRound == 0 { globalRound := 1; }
      SendBatch(globalRound);
      waitingForVersion := Some(if forest.Some? then forest.value.version else 0);
      EndCooldown(WAITING);
    }

    /** The sample is counted and, unless the legacy filter rejects it, enters the pool. */
    method Collect(point: Point, accept: bool) returns (cN: int, cWrites: int)
      requires Valid()
      modifies `ringBuffer, `cooldownN, `cooldownWrites, RingRepr()
      ensures cN == old(cooldownN).GetOr(0) + 1
      ensures cWrites == old(cooldownWrites).GetOr(0) + if Written(cfg, cN, accept) then 1 else 0
      ensures Did(Step(Collected(cfg, old(State()), point, accept), [], []))
    {
      cN := cooldownN.GetOr(0) + 1;
      cWrites := cooldownWrites.GetOr(0);
      cooldownN := Some(cN);
      if Written(cfg, cN, accept) {
        WriteToRingBuffer(point);
        cWrites := cWrites + 1;
        cooldownWrites := Some(cWrites);
      }
    }

    method HandleCooldown(point: Point, accept: bool)
      requires Valid()
      modifies this, RingRepr()
      ensures Did(CooldownElement(cfg, old(State()), point, accept))
    {
      var cN, cWrites := Collect(point, accept);
      var fillCondition := if cfg.policy == D1A && cfg.fill == RINGFULL then cWrites >= cfg.ringBufferSize
                           else cWrites >= cfg.ringBufferSize && cN >= cfg.cooldownSamples;
      var fallbackCondition := cN >= cfg.cooldownSamples * 2;
      if fillCondition || fallbackCondition {
        RetrainAndEnterWaiting();
      }
    }

    method HandleWaiting()
      requires Valid()
      modifies `subState, `scores, `backlog, `currentRoundId
      ensures Did(WaitingElement(cfg, old(State())))
    {
      var version := if forest.Some? then forest.value.version else 0;
      if waitingForVersion.Some? && version > waitingForVersion.value {
        subState := Some(STABLE);
        if cfg.pause == BACKLOG_THEN_NEW_FOREST {
          Drain(version, Phase.C);
        }
        currentRoundId := None;
      }
    }

    /** A COMMITTED decision is handled once. */
    method Consume(now: int)
      requires Valid() && forest.Some?
      modifies this
      ensures Did(Step(ConsumeDecision(cfg, old(State()), now), [], []))
      ensures fresh(RingRepr() - old(RingRepr()))
    {
      if decision.Some? && decision.value.status == COMMITTED
         && lastProcessedDecision != Some(decision.value.roundId) {
        HandleCommitted(decision.value.roundId, now);
        lastProcessedDecision := Some(decision.value.roundId);
      }
    }

    /** The point is scored under the current forest, or held back. */
    method Emit(point: Point)
      requires Valid() && forest.Some?
      modifies `scores, `backlog
      ensures Did(EmitOrHold(cfg, old(State()), point)) && RingRepr() == old(RingRepr())
    {
      if subState.GetOr(STABLE) == STABLE || cfg.pause == USE_OLD_FOREST {
        scores := scores + [Scored(point, forest.value.version, Phase.C)];
      } else {
        backlog := backlog + [point];
      }
    }

    method Dispatch(point: Point, accept: bool, ghost c: Step)
      requires Valid() && c == SubStateElement(cfg, State(), point, accept)
      modifies this, RingRepr()
      ensures Did(c)
    {
      match subState.GetOr(STABLE)
      case STABLE =>
      case COOLDOWN => HandleCooldown(point, accept);
      case WAITING => HandleWaiting();
    }

    /** Phase A: the backlog is scored first, unless a retraining is under way. */
    method DrainBacklog()
      requires Valid() && forest.Some?
      modifies `scores, `backlog
      ensures Did(DrainPhaseA(old(State()), Version(old(State())))) && RingRepr() == old(RingRepr())
    {
      if subState.GetOr(STABLE) == STABLE && backlog != [] {
        Drain(forest.value.version, Phase.A);
      }
    }

    /** Decision, then emission. */
    method ConsumeAndEmit(point: Point, now: int, ghost e: Step)
      requires Valid() && forest.Some? && e == EmitOrHold(cfg, ConsumeDecision(cfg, State(), now), point)
      modifies this
      ensures Valid() && State() == e.s && scores == old(scores) + e.scores && trees == old(trees)
      ensures fresh(RingRepr() - old(RingRepr()))
    {
      Consume(now);
      Emit(point);
    }

    /** Phase C: decision, emission, sub-state handler. */
    method PhaseC(point: Point, now: int, accept: bool, ghost e: Step, ghost c: Step)
      requires Valid() && forest.Some?
      requires e == EmitOrHold(cfg, ConsumeDecision(cfg, State(), now), point)
      requires c == SubStateElement(cfg, e.s, point, accept)
      modifies this, RingRepr()
      ensures Did(Step(c.s, e.scores + c.scores, c.trees))
    {
      ConsumeAndEmit(point, now, e);
      Dispatch(point, accept, c);
      assert old(scores) + e.scores + c.scores == old(scores) + (e.scores + c.scores);
    }

    /** One data point. */
    method ProcessElement(point: Point, now: int, accept: bool)
      requires Valid()
      modifies this, RingRepr()
      ensures Did(OnElement(cfg, old(State()), point, now, accept))
    {
      if forest.None? {
        backlog := backlog + [point];
        TrainIfReady(point);
        return;
      }
      ghost var a := DrainPhaseA(State(), Version(State()));
      ghost var e := EmitOrHold(cfg, ConsumeDecision(cfg, a.s, now), point);
      ghost var c := SubStateElement(cfg, e.s, point, accept);
      DrainBacklog();
      PhaseC(point, now, accept, e, c);
      Regroup(old(scores), a.scores, e.scores, c.scores);
    }

    /** COOLDOWN given up: the current forest scores the backlog, nothing is retrained. */
    method AbortCooldown()
      requires Valid()
      modifies `scores, `backlog, `subState, `cooldownN, `cooldownWrites, `cooldownTimerExpiry, `currentRoundId
      ensures Did(Abort(cfg, old(State())))
    {
      if cfg.pause == BACKLOG_THEN_NEW_FOREST && forest.Some? {
        Drain(forest.value.version, Phase.C);
      }
      EndCooldown(STABLE);
      currentRoundId := None;
    }

    /** Only the timer of the ongoing COOLDOWN aborts it; orphaned timers do nothing. */
    method OnTimer(timestamp: int)
      requires Valid()
      modifies this
      ensures Did(LocalModel.OnTimer(cfg, old(State()), timestamp))
    {
      if subState != Some(COOLDOWN) { return; }
      if cooldownTimerExpiry != Some(timestamp) { return; }
      AbortCooldown();
    }
  }
}
