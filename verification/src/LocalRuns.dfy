/** What holds of one scoring operator over every run of events. */
module LocalRuns {
  import opened Messages
  import opened Results
  import opened RingBufferModule
  import opened LocalModel

  datatype Event =
    | Element(p: Point, now: int, accept: bool)
    | ForestArrives(f: Forest)
    | RoundArrives(d: DriftRound)
    | Timer(timestamp: int)

  /**
    A state with its past: points arrived, scores emitted, trees sent, rounds that opened a COOLDOWN with the number
    of points that had arrived before each; for the latest COOLDOWN the time it was entered, the points it has
    received and how many of them entered the pool; the points that entered the pool since it was last emptied; and
    the forest version under which WAITING was last entered.
   */
  datatype Trace = Trace(s: Local, arrived: seq<Point>, scores: seq<Scored>, sent: seq<TreeMsg>,
                         rounds: seq<int>, openedAt: seq<nat>, entered: int, since: seq<Point>, taken: nat,
                         written: seq<Point>, under: int)

  const START := Trace(FRESH, [], [], [], [], [], 0, [], 0, [], 0)

  /** Does the next element find an unprocessed COMMITTED decision? */
  predicate Opens(s: Local) {
    && s.forest.Some? && s.decision.Some? && s.decision.value.status == COMMITTED
    && s.lastDecision != Some(s.decision.value.roundId)
  }

  /** Does the n-th sample of a COOLDOWN enter the pool? */
  predicate Enters(cfg: Config, n: nat, accept: bool) {
    n >= 50 && cfg.policy == LEGACY ==> accept
  }

  function TakenAfter(cfg: Config, t: Trace, accept: bool): nat {
    if Opens(t.s) then 1
    else if t.s.sub == Some(COOLDOWN) && Enters(cfg, |t.since| + 1, accept) then t.taken + 1
    else t.taken
  }

  function WrittenAfter(cfg: Config, t: Trace, p: Point, accept: bool): seq<Point> {
    if Opens(t.s) then (if cfg.policy == D1A then [] else t.written) + [p]
    else if if t.s.sub == Some(COOLDOWN) then Enters(cfg, |t.since| + 1, accept)
            else t.s.forest.None? && |t.sent| < cfg.localTreeCount
    then t.written + [p]
    else t.written
  }

  /** The version in force is remembered on entering WAITING. */
  function UnderAfter(t: Trace, s': Local): int {
    if s'.sub == Some(WAITING) && (t.s.sub != Some(WAITING) || Opens(t.s)) then Version(t.s) else t.under
  }

  /** The past of an element, its step being known. */
  function Recorded(cfg: Config, t: Trace, p: Point, now: int, accept: bool, r: Step): Trace {
    var opens := Opens(t.s);
    Trace(r.s, t.arrived + [p], t.scores + r.scores, t.sent + r.trees,
          if opens then t.rounds + [t.s.decision.value.roundId] else t.rounds,
          if opens then t.openedAt + [|t.arrived|] else t.openedAt,
          if opens then now else t.entered,
          if opens then [p] else if t.s.sub == Some(COOLDOWN) then t.since + [p] else t.since,
          TakenAfter(cfg, t, accept), WrittenAfter(cfg, t, p, accept), UnderAfter(t, r.s))
  }

  function Next(cfg: Config, t: Trace, e: Event): Trace {
    match e
    case ForestArrives(f) => t.(s := OnForest(t.s, f))
    case RoundArrives(d) => t.(s := OnRound(t.s, d))
    case Timer(ts) =>
      var r := OnTimer(cfg, t.s, ts);
      t.(s := r.s, scores := t.scores + r.scores, sent := t.sent + r.trees)
    case Element(p, now, accept) => Recorded(cfg, t, p, now, accept, OnElement(cfg, t.s, p, now, accept))
  }

  /** What an element reaches the sub-state handler with. */
  function AtSubState(cfg: Config, s: Local, p: Point, now: int): Local {
    EmitOrHold(cfg, ConsumeDecision(cfg, DrainPhaseA(s, Version(s)).s, now), p).s
  }

  function Run(cfg: Config, t: Trace, es: seq<Event>): Trace {
    if es == [] then t else Next(cfg, Run(cfg, t, es[..|es| - 1]), es[|es| - 1])
  }

  // ---------- control state ----------

  /** Sub-state, timer, round and bookkeeping fields agree, given the rounds opened so far. */
  ghost predicate Control(cfg: Config, s: Local, entered: int, rounds: seq<int>) {
    && (s.forest.None? ==> s.sub.None? && rounds == [])
    && (s.sub == Some(COOLDOWN) <==> s.expiry.Some?)
    && (s.expiry.Some? ==> s.expiry.value == entered + cfg.cooldownTimeoutMs)
    && (Sub(s) != STABLE <==> s.round.Some?)
    && (s.round.Some? ==> s.round == s.lastDecision)
    && s.lastDecision == (if rounds == [] then None else Some(rounds[|rounds| - 1]))
    && (s.sub == Some(WAITING) ==> s.waitingFor.Some?)
    && (s.sub == Some(COOLDOWN) <==> s.cooldownN.Some?) && (s.cooldownN.Some? <==> s.cooldownWrites.Some?)
    && (s.forest.Some? && Sub(s) != STABLE && cfg.pause == USE_OLD_FOREST ==> s.backlog == [])
  }

  ghost predicate ControlOf(cfg: Config, t: Trace) {
    Control(cfg, t.s, t.entered, t.rounds) && (t.s.forest.None? ==> t.scores == [])
  }

  lemma ControlSubState(cfg: Config, s: Local, p: Point, accept: bool, entered: int, rounds: seq<int>)
    requires Control(cfg, s, entered, rounds) && s.forest.Some?
    ensures Control(cfg, SubStateElement(cfg, s, p, accept).s, entered, rounds)
  {
  }

  lemma ControlDecision(cfg: Config, s: Local, now: int, entered: int, rounds: seq<int>)
    requires Control(cfg, s, entered, rounds) && s.forest.Some? && (Sub(s) == STABLE ==> s.backlog == [])
    ensures var s' := ConsumeDecision(cfg, s, now);
      if Opens(s) then Control(cfg, s', now, rounds + [s.decision.value.roundId]) && s'.sub == Some(COOLDOWN)
      else s' == s
  {
  }

  /** The control state between emission and the sub-state handler. */
  lemma ControlHeld(cfg: Config, s: Local, p: Point, now: int, entered: int, rounds: seq<int>)
    requires Control(cfg, s, entered, rounds) && s.forest.Some?
    ensures var e := AtSubState(cfg, s, p, now);
      && e.forest.Some?
      && if Opens(s) then Control(cfg, e, now, rounds + [s.decision.value.roundId])
         else Control(cfg, e, entered, rounds)
  {
    ControlDecision(cfg, DrainPhaseA(s, Version(s)).s, now, entered, rounds);
  }

  lemma ControlElement(cfg: Config, t: Trace, p: Point, now: int, accept: bool)
    requires ControlOf(cfg, t)
    ensures ControlOf(cfg, Next(cfg, t, Element(p, now, accept)))
  {
    if t.s.forest.Some? {
      ControlHeld(cfg, t.s, p, now, t.entered, t.rounds);
      var e := AtSubState(cfg, t.s, p, now);
      var t' := Next(cfg, t, Element(p, now, accept));
      ControlSubState(cfg, e, p, accept, t'.entered, t'.rounds);
    }
  }

  lemma ControlNext(cfg: Config, t: Trace, e: Event)
    requires ControlOf(cfg, t)
    ensures ControlOf(cfg, Next(cfg, t, e))
  {
    match e
    case Element(p, now, accept) => ControlElement(cfg, t, p, now, accept);
    case ForestArrives(f) =>
    case RoundArrives(d) =>
    case Timer(ts) =>
  }

  /** A COOLDOWN is given up only by the timer its latest entry set. */
  lemma OnlyLatestTimerAborts(cfg: Config, t: Trace, ts: int)
    requires ControlOf(cfg, t)
    ensures var t' := Next(cfg, t, Timer(ts));
      if t.s.sub == Some(COOLDOWN) && ts == t.entered + cfg.cooldownTimeoutMs then Sub(t'.s) == STABLE else t' == t
  {
  }

  // ---------- every point is scored exactly once, in order ----------

  function Points(scores: seq<Scored>): seq<Point> {
    seq(|scores|, i requires 0 <= i < |scores| => scores[i].point)
  }

  /** Emitted scores followed by the backlog are the arrivals. */
  ghost predicate ExactlyOnce(t: Trace) {
    Points(t.scores) + t.s.backlog == t.arrived
  }

  lemma PointsConcat(a: seq<Scored>, b: seq<Scored>)
    ensures Points(a + b) == Points(a) + Points(b)
  {
  }

  /** Outputs of consecutive steps compose. */
  lemma Compose(xs: seq<Scored>, ys: seq<Scored>, b: seq<Point>, b': seq<Point>, arrived: seq<Point>, tail: seq<Point>)
    requires Points(xs) + b == arrived && Points(ys) + b' == b + tail
    ensures Points(xs + ys) + b' == arrived + tail
  {
    PointsConcat(xs, ys);
    assert (Points(xs) + Points(ys)) + b' == Points(xs) + (Points(ys) + b');
    assert Points(xs) + (b + tail) == (Points(xs) + b) + tail;
  }

  lemma PointsOfAll(ps: seq<Point>, version: int, phase: Phase)
    ensures Points(ScoreAll(ps, version, phase)) == ps
  {
  }

  lemma DrainKeepsOrder(s: Local, version: int)
    ensures var a := DrainPhaseA(s, version); Points(a.scores) + a.s.backlog == s.backlog
  {
    PointsOfAll(s.backlog, version, Phase.A);
  }

  lemma HoldKeepsOrder(cfg: Config, s: Local, p: Point)
    requires Sub(s) == STABLE || cfg.pause == USE_OLD_FOREST ==> s.backlog == []
    ensures var e := EmitOrHold(cfg, s, p); Points(e.scores) + e.s.backlog == s.backlog + [p]
  {
  }

  lemma SubStateKeepsOrder(cfg: Config, s: Local, p: Point, accept: bool)
    ensures var c := SubStateElement(cfg, s, p, accept); Points(c.scores) + c.s.backlog == s.backlog
  {
    PointsOfAll(s.backlog, Version(s), Phase.C);
  }

  /** One element: what is emitted, then what is held back, is what was held back and then the new point. */
  lemma ElementKeepsOrder(cfg: Config, s: Local, p: Point, now: int, accept: bool, entered: int, rounds: seq<int>)
    requires Control(cfg, s, entered, rounds)
    ensures var r := OnElement(cfg, s, p, now, accept); Points(r.scores) + r.s.backlog == s.backlog + [p]
  {
    if s.forest.Some? {
      var a := DrainPhaseA(s, Version(s));
      var d := ConsumeDecision(cfg, a.s, now);
      var e := EmitOrHold(cfg, d, p);
      var c := SubStateElement(cfg, e.s, p, accept);
      DrainKeepsOrder(s, Version(s));
      HoldKeepsOrder(cfg, d, p);
      SubStateKeepsOrder(cfg, e.s, p, accept);
      Compose(a.scores, e.scores, a.s.backlog, e.s.backlog, s.backlog, [p]);
      ComposeSame(a.scores + e.scores, c.scores, e.s.backlog, c.s.backlog, s.backlog + [p]);
    }
  }

  lemma ComposeSame(xs: seq<Scored>, ys: seq<Scored>, b: seq<Point>, b': seq<Point>, arrived: seq<Point>)
    requires Points(xs) + b == arrived && Points(ys) + b' == b
    ensures Points(xs + ys) + b' == arrived
  {
    assert b + [] == b && arrived + [] == arrived;
    Compose(xs, ys, b, b', arrived, []);
  }

  lemma ExactlyOnceNext(cfg: Config, t: Trace, e: Event)
    requires ControlOf(cfg, t) && ExactlyOnce(t)
    ensures ExactlyOnce(Next(cfg, t, e))
  {
    match e
    case Element(p, now, accept) =>
      ElementKeepsOrder(cfg, t.s, p, now, accept, t.entered, t.rounds);
      var r := OnElement(cfg, t.s, p, now, accept);
      Compose(t.scores, r.scores, t.s.backlog, r.s.backlog, t.arrived, [p]);
    case Timer(ts) =>
      PointsOfAll(t.s.backlog, Version(t.s), Phase.C);
      var r := OnTimer(cfg, t.s, ts);
      ComposeSame(t.scores, r.scores, t.s.backlog, r.s.backlog, t.arrived);
    case ForestArrives(f) =>
    case RoundArrives(d) =>
  }

  /** In every reachable state, in both pause modes, whatever timers fire and decisions arrive. */
  lemma {:induction false} ExactlyOnceInOrder(cfg: Config, es: seq<Event>)
    ensures var t := Run(cfg, START, es); ControlOf(cfg, t) && ExactlyOnce(t)
  {
    if es == [] {
    } else {
      ExactlyOnceInOrder(cfg, es[..|es| - 1]);
      var t := Run(cfg, START, es[..|es| - 1]);
      ControlNext(cfg, t, es[|es| - 1]);
      ExactlyOnceNext(cfg, t, es[|es| - 1]);
    }
  }

  // ---------- the D1A pool ----------

  /** The number of COOLDOWN samples at which the D1A policy retrains. */
  function Target(cfg: Config): int {
    var enough := if cfg.fill == RINGFULL || cfg.ringBufferSize > cfg.cooldownSamples
                  then cfg.ringBufferSize else cfg.cooldownSamples;
    var n := if enough < cfg.cooldownSamples * 2 then enough else cfg.cooldownSamples * 2;
    if n < 1 then 1 else n
  }

  /** In a D1A COOLDOWN the ring holds the newest points since its COMMITTED and nothing older. */
  ghost predicate Collecting(cfg: Config, s: Local, since: seq<Point>) {
    && s.ring == Some(Last(since, cfg.ringBufferSize))
    && s.cooldownN == s.cooldownWrites == Some(|since|) && |since| < Target(cfg)
  }

  ghost predicate Pool(cfg: Config, t: Trace) {
    t.s.sub == Some(COOLDOWN) ==> Collecting(cfg, t.s, t.since)
  }

  lemma CollectedRing(cfg: Config, s: Local, p: Point, accept: bool, since: seq<Point>)
    requires cfg.policy == D1A && cfg.ringBufferSize > 0 && Collecting(cfg, s, since)
    ensures var all := since + [p];
      Collected(cfg, s, p, accept) == s.(ring := Some(Last(all, cfg.ringBufferSize)),
                                         cooldownN := Some(|all|), cooldownWrites := Some(|all|))
  {
    PushLast(since, cfg.ringBufferSize, p);
  }

  /** One COOLDOWN element: the retraining happens exactly at the target, on exactly the newest points. */
  lemma CollectElement(cfg: Config, s: Local, p: Point, accept: bool, since: seq<Point>)
    requires cfg.policy == D1A && cfg.ringBufferSize > 0 && Collecting(cfg, s, since)
    ensures var c := CooldownElement(cfg, s, p, accept); var all := since + [p];
      if |all| == Target(cfg)
      then c.s.sub == Some(WAITING) && c.trees == Batch(cfg, BatchRound(s), Last(all, cfg.ringBufferSize))
           && c.s.round == s.round
      else c.s.sub == s.sub && c.trees == [] && Collecting(cfg, c.s, all)
  {
    CollectedRing(cfg, s, p, accept, since);
  }

  /** The points the ongoing COOLDOWN has received when the element reaches the sub-state handler. */
  ghost function SoFar(t: Trace): seq<Point> {
    if Opens(t.s) then [] else t.since
  }

  lemma PoolHeld(cfg: Config, t: Trace, p: Point, now: int)
    requires cfg.policy == D1A && cfg.ringBufferSize > 0 && ControlOf(cfg, t) && Pool(cfg, t) && t.s.forest.Some?
    ensures var e := AtSubState(cfg, t.s, p, now);
      && (Sub(e) == COOLDOWN <==> Opens(t.s) || t.s.sub == Some(COOLDOWN))
      && (Sub(e) == COOLDOWN ==> e.sub == Some(COOLDOWN) && Collecting(cfg, e, SoFar(t)))
  {
  }

  lemma SubStatePool(cfg: Config, s: Local, p: Point, accept: bool, since: seq<Point>)
    requires cfg.policy == D1A && cfg.ringBufferSize > 0
    requires Sub(s) == COOLDOWN ==> s.sub == Some(COOLDOWN) && Collecting(cfg, s, since)
    ensures var c := SubStateElement(cfg, s, p, accept); var all := since + [p];
      if Sub(s) == COOLDOWN && |all| == Target(cfg)
      then c.s.sub == Some(WAITING) && c.trees == Batch(cfg, BatchRound(c.s), Last(all, cfg.ringBufferSize))
      else c.trees == [] && (c.s.sub == Some(COOLDOWN) ==> Sub(s) == COOLDOWN && Collecting(cfg, c.s, all))
  {
    if Sub(s) == COOLDOWN { CollectElement(cfg, s, p, accept, since); }
  }

  /**
    An element retrains exactly when it brings an ongoing or just opened COOLDOWN to the target; the trees are then
    a full batch for its round, trained on the last `ringBufferSize` points since the COMMITTED that opened it.
   */
  lemma PoolElement(cfg: Config, t: Trace, p: Point, now: int, accept: bool)
    requires cfg.policy == D1A && cfg.ringBufferSize > 0 && ControlOf(cfg, t) && Pool(cfg, t) && t.s.forest.Some?
    ensures var t' := Next(cfg, t, Element(p, now, accept));
      && Pool(cfg, t')
      && if (Opens(t.s) || t.s.sub == Some(COOLDOWN)) && |t'.since| == Target(cfg)
         then t'.s.sub == Some(WAITING)
              && t'.sent == t.sent + Batch(cfg, BatchRound(t'.s), Last(t'.since, cfg.ringBufferSize))
         else t'.sent == t.sent
  {
    PoolHeld(cfg, t, p, now);
    SubStatePool(cfg, AtSubState(cfg, t.s, p, now), p, accept, SoFar(t));
    assert [] + [p] == [p] && t.sent + [] == t.sent;
  }

  lemma PoolNext(cfg: Config, t: Trace, e: Event)
    requires cfg.policy == D1A && cfg.ringBufferSize > 0 && ControlOf(cfg, t) && Pool(cfg, t)
    ensures Pool(cfg, Next(cfg, t, e))
  {
    match e
    case Element(p, now, accept) => if t.s.forest.Some? { PoolElement(cfg, t, p, now, accept); }
    case ForestArrives(f) =>
    case RoundArrives(d) =>
    case Timer(ts) =>
  }

  /** The pool invariant in every reachable state. */
  lemma {:induction false} PoolAlways(cfg: Config, es: seq<Event>)
    requires cfg.policy == D1A && cfg.ringBufferSize > 0
    ensures Pool(cfg, Run(cfg, START, es))
  {
    if es == [] {
    } else {
      PoolAlways(cfg, es[..|es| - 1]);
      ExactlyOnceInOrder(cfg, es[..|es| - 1]);
      PoolNext(cfg, Run(cfg, START, es[..|es| - 1]), es[|es| - 1]);
    }
  }

  /** Uninterrupted, the distance to the target shrinks by one with every element, so the retraining is reached. */
  lemma CooldownCountsDown(cfg: Config, t: Trace, p: Point, now: int, accept: bool)
    requires cfg.policy == D1A && cfg.ringBufferSize > 0 && ControlOf(cfg, t) && Pool(cfg, t)
    requires t.s.sub == Some(COOLDOWN) && !Opens(t.s)
    ensures var t' := Next(cfg, t, Element(p, now, accept));
      && 0 <= Target(cfg) - |t'.since| == Target(cfg) - |t.since| - 1
      && (t'.s.sub == Some(WAITING) <==> |t'.since| == Target(cfg))
      && (t'.s.sub == Some(COOLDOWN) <==> |t'.since| < Target(cfg))
  {
    PoolElement(cfg, t, p, now, accept);
    var a := DrainPhaseA(t.s, Version(t.s)).s;
    var e := EmitOrHold(cfg, a, p).s;
    CollectElement(cfg, e, p, accept, t.since);
  }

  // ---------- what enters the pool ----------

  /** Of the samples of a COOLDOWN the first 49 were written, and of the later ones some. */
  ghost predicate WritesOk(cfg: Config, s: Local) {
    s.cooldownN.Some? ==>
      var n, writes := s.cooldownN.value, s.cooldownWrites.GetOr(0);
      && 0 <= writes <= n && (n <= 49 || cfg.policy == D1A ==> writes == n) && (n > 49 ==> writes >= 49)
  }

  lemma WritesSubState(cfg: Config, s: Local, p: Point, accept: bool)
    requires WritesOk(cfg, s) && (Sub(s) == COOLDOWN ==> s.cooldownN.Some?)
    ensures WritesOk(cfg, SubStateElement(cfg, s, p, accept).s)
  {
  }

  lemma WritesDecision(cfg: Config, s: Local, p: Point, now: int)
    requires WritesOk(cfg, s) && (s.sub == Some(COOLDOWN) <==> s.cooldownN.Some?)
    ensures var e := AtSubState(cfg, s, p, now);
      WritesOk(cfg, e) && (e.sub == Some(COOLDOWN) <==> e.cooldownN.Some?)
  {
  }

  lemma WritesElement(cfg: Config, t: Trace, p: Point, now: int, accept: bool)
    requires ControlOf(cfg, t) && WritesOk(cfg, t.s)
    ensures WritesOk(cfg, OnElement(cfg, t.s, p, now, accept).s)
  {
    if t.s.forest.Some? {
      WritesDecision(cfg, t.s, p, now);
      var e := AtSubState(cfg, t.s, p, now);
      WritesSubState(cfg, e, p, accept);
    }
  }

  lemma WritesNext(cfg: Config, t: Trace, e: Event)
    requires ControlOf(cfg, t) && WritesOk(cfg, t.s)
    ensures WritesOk(cfg, Next(cfg, t, e).s)
  {
    match e
    case Element(p, now, accept) => WritesElement(cfg, t, p, now, accept);
    case ForestArrives(f) =>
    case RoundArrives(d) =>
    case Timer(ts) =>
  }

  /** Under either policy, in every reachable state. */
  lemma {:induction false} WritesAlways(cfg: Config, es: seq<Event>)
    ensures WritesOk(cfg, Run(cfg, START, es).s)
  {
    if es == [] {
    } else {
      WritesAlways(cfg, es[..|es| - 1]);
      ExactlyOnceInOrder(cfg, es[..|es| - 1]);
      WritesNext(cfg, Run(cfg, START, es[..|es| - 1]), es[|es| - 1]);
    }
  }
}
