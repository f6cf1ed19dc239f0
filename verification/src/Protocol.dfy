/**
  The retraining protocol as a whole: P scoring operators, the coordinator and the aggregator, connected by topics
  that deliver in order and without duplicates.  The two broadcast topics are logs read at the pace of each
  operator; each operator's trees are a stream the coordinator reads at its own pace.
 */
module Protocol {
  import opened Messages
  import opened Results
  import opened LocalModel
  import opened LocalRuns
  import opened LocalStreams
  import opened LocalLaws
  import opened CoordinatorModel
  import A = AggregatorModel

  datatype Setup = Setup(parallelism: nat, operator: Config, agg: A.Params)

  datatype Sys = Sys(
    agg: A.Agg, rounds: seq<DriftRound>,
    coord: Coord, forests: seq<Forest>,
    locals: seq<Trace>,
    roundAt: seq<nat>, forestAt: seq<nat>, treeAt: seq<nat>)

  datatype Action =
    | OnsetArrives(o: A.Onset)
    | PointArrives(i: nat, p: Point, now: int, accept: bool)
    | TimerFires(i: nat, timestamp: int)
    | RoundDelivered(i: nat)
    | ForestDelivered(i: nat)
    | TreeDelivered(i: nat)

  function Cfg(c: Setup, i: nat): Config { c.operator.(subtask := i) }

  function Init(c: Setup): Sys {
    var zeros := seq(c.parallelism, i => 0);
    Sys(A.NEW_AGG, [], NEW_COORD, [], seq(c.parallelism, i => START), zeros, zeros, zeros)
  }

  ghost predicate Shape(c: Setup, y: Sys) {
    |y.locals| == |y.roundAt| == |y.forestAt| == |y.treeAt| == c.parallelism
  }

  function At(c: Setup, y: Sys, i: nat, e: Event): Sys
    requires i < |y.locals|
  {
    y.(locals := y.locals[i := Next(Cfg(c, i), y.locals[i], e)])
  }

  /** One action; an action that is not enabled changes nothing. */
  function Do(c: Setup, y: Sys, a: Action): Sys
    requires Shape(c, y)
  {
    match a
    case OnsetArrives(o) =>
      var (s, d) := A.Receive(c.agg, y.agg, o);
      y.(agg := s, rounds := if d.Some? then y.rounds + [d.value] else y.rounds)
    case PointArrives(i, p, now, accept) =>
      if i < c.parallelism then At(c, y, i, Element(p, now, accept)) else y
    case TimerFires(i, ts) =>
      if i < c.parallelism then At(c, y, i, Timer(ts)) else y
    case RoundDelivered(i) =>
      if i < c.parallelism && y.roundAt[i] < |y.rounds|
      then At(c, y, i, RoundArrives(y.rounds[y.roundAt[i]])).(roundAt := y.roundAt[i := y.roundAt[i] + 1]) else y
    case ForestDelivered(i) =>
      if i < c.parallelism && y.forestAt[i] < |y.forests|
      then At(c, y, i, ForestArrives(y.forests[y.forestAt[i]])).(forestAt := y.forestAt[i := y.forestAt[i] + 1]) else y
    case TreeDelivered(i) =>
      if i < c.parallelism && y.treeAt[i] < |y.locals[i].sent|
      then
        var (s, f) := Receive(c.parallelism, c.operator.localTreeCount, y.coord, y.locals[i].sent[y.treeAt[i]]);
        y.(coord := s, forests := if f.Some? then y.forests + [f.value] else y.forests,
           treeAt := y.treeAt[i := y.treeAt[i] + 1])
      else y
  }

  // ---------- the invariant ----------

  function LogAt<T>(log: seq<T>, n: nat): Option<T>
    requires n <= |log|
  {
    if n == 0 then None else Some(log[n - 1])
  }

  /** One operator: its streams are in order, and its broadcast state is what its topics have delivered. */
  ghost predicate OperatorOk(c: Setup, y: Sys, i: nat)
    requires Shape(c, y) && i < c.parallelism
  {
    var t := y.locals[i];
    && Streams(Cfg(c, i), t) && ExactlyOnce(t) && VersionsUp(t.s, t.scores)
    && y.roundAt[i] <= |y.rounds| && t.s.decision == LogAt(y.rounds, y.roundAt[i])
    && y.forestAt[i] <= |y.forests| && t.s.forest == LogAt(y.forests, y.forestAt[i])
    && y.treeAt[i] <= |t.sent|
  }

  ghost predicate VersionsOk(y: Sys) {
    && y.coord.version == (if y.forests == [] then None else Some(|y.forests|))
    && forall n :: 0 <= n < |y.forests| ==> y.forests[n].version == n + 1
  }

  /** Subtask i's message of this round and slot has reached the coordinator. */
  ghost predicate Delivered(y: Sys, i: nat, round: int, slot: int)
    requires i < |y.locals| && i < |y.treeAt|
  {
    exists n :: 0 <= n < y.treeAt[i] && n < |y.locals[i].sent|
      && y.locals[i].sent[n].round == round && y.locals[i].sent[n].slot == slot
  }

  /** Every stored tree sits in its slot and was sent by its subtask. */
  ghost predicate TableOk(c: Setup, y: Sys)
    requires Shape(c, y)
  {
    && Keyed(y.coord.trees)
    && forall k :: k in y.coord.trees ==>
         0 <= k.0 < c.parallelism && 0 <= y.coord.trees[k].round <= |y.rounds|
         && Delivered(y, k.0, y.coord.trees[k].round, k.1)
  }

  ghost predicate ForestsOk(c: Setup, y: Sys) {
    forall n :: 0 <= n < |y.forests| ==> WellFormedForest(c, y.forests[n])
  }

  /** Exactly one tree per (subtask, slot), of one low round and one sample size. */
  ghost predicate WellFormedForest(c: Setup, f: Forest) {
    && OneEach(f.trees, c.parallelism, c.operator.localTreeCount)
    && |f.trees| > 0 && SameRound(f.trees) && Sized(f)
  }

  function RoundOf(f: Forest): int
  {
    if f.trees == [] then -1 else f.trees[0].round
  }

  ghost predicate OneRound(f: Forest) {
    forall n :: 0 <= n < |f.trees| ==> f.trees[n].round == RoundOf(f)
  }

  /** As long as round ids fit in 32 bits: one exact round per forest, strictly increasing from forest to forest. */
  ghost predicate RoundsOk(c: Setup, y: Sys)
    requires Shape(c, y)
  {
    && (forall n :: 0 <= n < |y.forests| ==> OneRound(y.forests[n]))
    && (forall m, n :: 0 <= m < n < |y.forests| ==> RoundOf(y.forests[m]) < RoundOf(y.forests[n]))
    && (y.forests != [] ==> forall i :: 0 <= i < c.parallelism ==> LastSlotDelivered(c, y, i))
  }

  /** The last slot of the newest forest's round has come in from subtask i, so what follows is of a later round. */
  ghost predicate LastSlotDelivered(c: Setup, y: Sys, i: nat)
    requires Shape(c, y) && i < c.parallelism && y.forests != []
  {
    RoundIn(c, y, i, RoundOf(y.forests[|y.forests| - 1]))
  }

  ghost predicate RoundIn(c: Setup, y: Sys, i: nat, round: int)
    requires Shape(c, y) && i < c.parallelism
  {
    Delivered(y, i, round, c.operator.localTreeCount - 1)
  }

  /** The committed rounds are 1, 2, 3, ... */
  ghost predicate LogOk(c: Setup, y: Sys) {
    exists onsets: nat :: A.Counted(c.agg, y.agg, y.rounds, onsets)
  }

  ghost predicate Inv(c: Setup, y: Sys) {
    && Shape(c, y)
    && (forall i :: 0 <= i < c.parallelism ==> OperatorOk(c, y, i))
    && LogOk(c, y)
    && VersionsOk(y) && TableOk(c, y) && ForestsOk(c, y)
    && (|y.rounds| < ROUND_SPACE ==> RoundsOk(c, y))
  }

  // ---------- operators ----------

  /** Elements and timers leave the broadcast state alone and only add to what was sent. */
  lemma OwnEvent(cfg: Config, t: Trace, e: Event)
    requires e.Element? || e.Timer?
    ensures var t' := Next(cfg, t, e); t'.s.forest == t.s.forest && t'.s.decision == t.s.decision && t.sent <= t'.sent
  {
    if e.Element? && t.s.forest.Some? {
      var a := DrainPhaseA(t.s, Version(t.s)).s;
      var d := ConsumeDecision(cfg, a, e.now);
      var m := EmitOrHold(cfg, d, e.p).s;
      assert m.forest == t.s.forest && m.decision == t.s.decision;
      OwnSubState(cfg, m, e.p, e.accept);
    }
  }

  lemma OwnSubState(cfg: Config, s: Local, p: Point, accept: bool)
    ensures var r := SubStateElement(cfg, s, p, accept).s; r.forest == s.forest && r.decision == s.decision
  {
  }

  /** An in-order event keeps everything that holds of one operator by itself. */
  lemma OperatorNext(cfg: Config, t: Trace, e: Event)
    requires Streams(cfg, t) && ExactlyOnce(t) && VersionsUp(t.s, t.scores) && InOrder(t.s, e)
    ensures var t' := Next(cfg, t, e); Streams(cfg, t') && ExactlyOnce(t') && VersionsUp(t'.s, t'.scores)
  {
    StreamsNext(cfg, t, e);
    ExactlyOnceNext(cfg, t, e);
    VersionsNext(cfg, t, e);
  }

  lemma DeliveredGrows(y: Sys, y': Sys, i: nat, round: int, slot: int)
    requires i < |y.locals| == |y.treeAt| == |y'.locals| == |y'.treeAt|
    requires y.locals[i].sent <= y'.locals[i].sent && y.treeAt[i] <= y'.treeAt[i]
    requires Delivered(y, i, round, slot)
    ensures Delivered(y', i, round, slot)
  {
    var n :| 0 <= n < y.treeAt[i] && n < |y.locals[i].sent|
      && y.locals[i].sent[n].round == round && y.locals[i].sent[n].slot == slot;
    assert y'.locals[i].sent[n] == y.locals[i].sent[n];
  }

  /** What the coordinator has stays valid while streams and logs grow. */
  lemma CoordinatorFrame(c: Setup, y: Sys, y': Sys)
    requires Shape(c, y) && Shape(c, y')
    requires y'.coord == y.coord && y'.forests == y.forests && |y.rounds| <= |y'.rounds|
    requires forall i :: 0 <= i < c.parallelism ==>
      y.locals[i].sent <= y'.locals[i].sent && y.treeAt[i] <= y'.treeAt[i]
    ensures TableOk(c, y) ==> TableOk(c, y')
    ensures RoundsOk(c, y) ==> RoundsOk(c, y')
  {
    if TableOk(c, y) {
      forall k | k in y'.coord.trees
        ensures 0 <= k.0 < c.parallelism && 0 <= y'.coord.trees[k].round <= |y'.rounds|
                && Delivered(y', k.0, y'.coord.trees[k].round, k.1)
      {
        DeliveredGrows(y, y', k.0, y.coord.trees[k].round, k.1);
      }
    }
    if RoundsOk(c, y) && y.forests != [] {
      forall i | 0 <= i < c.parallelism ensures LastSlotDelivered(c, y', i) {
        assert LastSlotDelivered(c, y, i);
        DeliveredGrows(y, y', i, RoundOf(y.forests[|y.forests| - 1]), c.operator.localTreeCount - 1);
      }
    }
  }

  /** An operator whose own fields did not change, over longer logs. */
  lemma OperatorFrame(c: Setup, y: Sys, y': Sys, i: nat)
    requires Shape(c, y) && Shape(c, y') && i < c.parallelism && OperatorOk(c, y, i)
    requires y'.locals[i] == y.locals[i] && y'.roundAt[i] == y.roundAt[i] && y'.forestAt[i] == y.forestAt[i]
    requires y'.treeAt[i] <= |y.locals[i].sent|
    requires y.rounds <= y'.rounds && y.forests <= y'.forests
    ensures OperatorOk(c, y', i)
  {
  }

  /** Only operator i moved, and what it sent only grew. */
  ghost predicate Moved(c: Setup, y: Sys, y': Sys, i: nat)
    requires Shape(c, y) && Shape(c, y') && i < c.parallelism
  {
    && y'.agg == y.agg && y'.rounds == y.rounds && y'.coord == y.coord && y'.forests == y.forests
    && y'.treeAt == y.treeAt && y.locals[i].sent <= y'.locals[i].sent
    && forall j :: 0 <= j < c.parallelism && j != i ==>
         y'.locals[j] == y.locals[j] && y'.roundAt[j] == y.roundAt[j] && y'.forestAt[j] == y.forestAt[j]
  }

  lemma MovedKeepsInv(c: Setup, y: Sys, y': Sys, i: nat)
    requires Inv(c, y) && Shape(c, y') && i < c.parallelism && Moved(c, y, y', i) && OperatorOk(c, y', i)
    ensures Inv(c, y')
  {
    forall j | 0 <= j < c.parallelism ensures OperatorOk(c, y', j) {
      if j != i {
        assert OperatorOk(c, y, j);
        OperatorFrame(c, y, y', j);
      }
    }
    CoordinatorFrame(c, y, y');
  }

  lemma OwnEventKeepsInv(c: Setup, y: Sys, i: nat, e: Event)
    requires Inv(c, y) && i < c.parallelism && (e.Element? || e.Timer?)
    ensures Inv(c, At(c, y, i, e))
  {
    assert OperatorOk(c, y, i);
    OwnEvent(Cfg(c, i), y.locals[i], e);
    OperatorNext(Cfg(c, i), y.locals[i], e);
    MovedKeepsInv(c, y, At(c, y, i, e), i);
  }

  /** The topics deliver in order: round ids and versions only go up. */
  lemma RoundInOrder(c: Setup, y: Sys, i: nat)
    requires Inv(c, y) && i < c.parallelism && y.roundAt[i] < |y.rounds|
    ensures InOrder(y.locals[i].s, RoundArrives(y.rounds[y.roundAt[i]]))
  {
    assert OperatorOk(c, y, i);
    var onsets: nat :| A.Counted(c.agg, y.agg, y.rounds, onsets);
  }

  lemma ForestInOrder(c: Setup, y: Sys, i: nat)
    requires Inv(c, y) && i < c.parallelism && y.forestAt[i] < |y.forests|
    ensures InOrder(y.locals[i].s, ForestArrives(y.forests[y.forestAt[i]]))
  {
    assert OperatorOk(c, y, i);
  }

  lemma RoundDeliveredKeepsInv(c: Setup, y: Sys, i: nat)
    requires Inv(c, y) && i < c.parallelism && y.roundAt[i] < |y.rounds|
    ensures Inv(c, Do(c, y, RoundDelivered(i)))
  {
    assert OperatorOk(c, y, i);
    RoundInOrder(c, y, i);
    OperatorNext(Cfg(c, i), y.locals[i], RoundArrives(y.rounds[y.roundAt[i]]));
    MovedKeepsInv(c, y, Do(c, y, RoundDelivered(i)), i);
  }

  lemma ForestDeliveredKeepsInv(c: Setup, y: Sys, i: nat)
    requires Inv(c, y) && i < c.parallelism && y.forestAt[i] < |y.forests|
    ensures Inv(c, Do(c, y, ForestDelivered(i)))
  {
    assert OperatorOk(c, y, i);
    ForestInOrder(c, y, i);
    OperatorNext(Cfg(c, i), y.locals[i], ForestArrives(y.forests[y.forestAt[i]]));
    MovedKeepsInv(c, y, Do(c, y, ForestDelivered(i)), i);
  }

  lemma OnsetKeepsInv(c: Setup, y: Sys, o: A.Onset)
    requires Inv(c, y) && c.agg.k > 0
    ensures Inv(c, Do(c, y, OnsetArrives(o)))
  {
    var y' := Do(c, y, OnsetArrives(o));
    var onsets: nat :| A.Counted(c.agg, y.agg, y.rounds, onsets);
    A.CountedNext(c.agg, y.agg, y.rounds, onsets, o);
    assert A.Counted(c.agg, y'.agg, y'.rounds, onsets + 1);
    forall j | 0 <= j < c.parallelism ensures OperatorOk(c, y', j) {
      assert OperatorOk(c, y, j);
      OperatorFrame(c, y, y', j);
    }
    CoordinatorFrame(c, y, y');
  }

  // ---------- the coordinator ----------

  /** A sent message names its subtask, a known slot, and a round no later than the newest committed one. */
  lemma MessageBounds(c: Setup, y: Sys, i: nat, n: nat)
    requires Shape(c, y) && i < c.parallelism && OperatorOk(c, y, i) && LogOk(c, y) && n < |y.locals[i].sent|
    ensures var m := y.locals[i].sent[n];
      m.subtask == i && 0 <= m.slot < c.operator.localTreeCount && 0 <= m.round <= |y.rounds|
  {
    var onsets: nat :| A.Counted(c.agg, y.agg, y.rounds, onsets);
    assert y.roundAt[i] > 0 ==> y.rounds[y.roundAt[i] - 1].roundId == y.roundAt[i];
    assert Trees(Cfg(c, i), y.locals[i].s, y.locals[i].sent);
  }

  /** The table with a message of subtask i stored in its slot, when that message has been read. */
  ghost predicate Stored(c: Setup, y: Sys, y': Sys, i: nat)
    requires Shape(c, y) && i < c.parallelism && y.treeAt[i] < |y.locals[i].sent|
  {
    var m := y.locals[i].sent[y.treeAt[i]];
    && y'.locals == y.locals && y'.rounds == y.rounds && y'.treeAt == y.treeAt[i := y.treeAt[i] + 1]
    && y'.coord.trees == y.coord.trees[(i, m.slot) := m]
    && m.subtask == i && 0 <= m.round <= |y.rounds|
  }

  lemma EntryNext(c: Setup, y: Sys, y': Sys, i: nat, k: (int, int))
    requires Shape(c, y) && TableOk(c, y) && i < c.parallelism && y.treeAt[i] < |y.locals[i].sent|
    requires Stored(c, y, y', i) && k in y'.coord.trees
    ensures 0 <= k.0 < c.parallelism && 0 <= y'.coord.trees[k].round <= |y'.rounds|
    ensures Delivered(y', k.0, y'.coord.trees[k].round, k.1)
  {
    var m := y.locals[i].sent[y.treeAt[i]];
    if k == (i, m.slot) {
      assert y'.locals[i].sent[y.treeAt[i]] == m;
    } else {
      DeliveredGrows(y, y', k.0, y.coord.trees[k].round, k.1);
    }
  }

  lemma StoredTable(c: Setup, y: Sys, y': Sys, i: nat)
    requires Shape(c, y) && Shape(c, y') && TableOk(c, y) && i < c.parallelism && y.treeAt[i] < |y.locals[i].sent|
    requires Stored(c, y, y', i)
    ensures TableOk(c, y')
  {
    forall k | k in y'.coord.trees
      ensures 0 <= k.0 < c.parallelism && 0 <= y'.coord.trees[k].round <= |y'.rounds|
              && Delivered(y', k.0, y'.coord.trees[k].round, k.1)
    {
      EntryNext(c, y, y', i, k);
    }
  }

  lemma TableNext(c: Setup, y: Sys, i: nat)
    requires Shape(c, y) && i < c.parallelism && OperatorOk(c, y, i) && y.treeAt[i] < |y.locals[i].sent|
    requires LogOk(c, y) && TableOk(c, y)
    ensures TableOk(c, Do(c, y, TreeDelivered(i)))
  {
    MessageBounds(c, y, i, y.treeAt[i]);
    ReceiveTable(c.parallelism, c.operator.localTreeCount, y.coord, y.locals[i].sent[y.treeAt[i]]);
    StoredTable(c, y, Do(c, y, TreeDelivered(i)), i);
  }

  /** What a new forest is made of. */
  ghost predicate Assembled(c: Setup, y': Sys, f: Forest, m: TreeMsg) {
    && WellFormedForest(c, f)
    && (forall p :: 0 <= p < |f.trees| ==> f.trees[p] in y'.coord.trees.Values)
    && CopiesTable(f.trees, y'.coord.trees, c.parallelism, c.operator.localTreeCount)
    && (m.subtask, m.slot) in y'.coord.trees && y'.coord.trees[(m.subtask, m.slot)] == m
  }

  /** What the coordinator answers to a message is what a forest is made of. */
  lemma Answered(c: Setup, y: Sys, y': Sys, m: TreeMsg)
    requires Keyed(y.coord.trees)
    requires y'.coord == Receive(c.parallelism, c.operator.localTreeCount, y.coord, m).0
    ensures var f := Receive(c.parallelism, c.operator.localTreeCount, y.coord, m).1;
      f.Some? ==> Assembled(c, y', f.value, m)
  {
    ReceiveMeaning(c.parallelism, c.operator.localTreeCount, y.coord, m);
    ReceiveTable(c.parallelism, c.operator.localTreeCount, y.coord, m);
    ForestMembers(c.parallelism, c.operator.localTreeCount, y.coord, m);
  }

  lemma ForestVersions(c: Setup, y: Sys, i: nat)
    requires Shape(c, y) && i < c.parallelism && y.treeAt[i] < |y.locals[i].sent|
    requires Keyed(y.coord.trees) && VersionsOk(y)
    ensures VersionsOk(Do(c, y, TreeDelivered(i)))
  {
    ReceiveMeaning(c.parallelism, c.operator.localTreeCount, y.coord, y.locals[i].sent[y.treeAt[i]]);
  }

  lemma NewForest(c: Setup, y: Sys, i: nat)
    requires Shape(c, y) && i < c.parallelism && y.treeAt[i] < |y.locals[i].sent|
    requires Keyed(y.coord.trees) && VersionsOk(y)
    ensures var y', m := Do(c, y, TreeDelivered(i)), y.locals[i].sent[y.treeAt[i]];
      && VersionsOk(y')
      && (y'.forests == y.forests ||
          (|y'.forests| == |y.forests| + 1 && y.forests <= y'.forests && Assembled(c, y', y'.forests[|y.forests|], m)))
  {
    ForestVersions(c, y, i);
    Answered(c, y, Do(c, y, TreeDelivered(i)), y.locals[i].sent[y.treeAt[i]]);
  }

  /** With 32-bit rounds, the round check of the coordinator is exact. */
  lemma ExactRound(c: Setup, y': Sys, f: Forest, m: TreeMsg)
    requires Shape(c, y') && TableOk(c, y') && Assembled(c, y', f, m) && |y'.rounds| < ROUND_SPACE
    requires 0 <= m.subtask < c.parallelism && 0 <= m.slot < c.operator.localTreeCount
    ensures OneRound(f) && RoundOf(f) == m.round
  {
    forall p | 0 <= p < |f.trees| ensures LowRound(f.trees[p]) == f.trees[p].round {
      assert f.trees[p] in y'.coord.trees.Values;
      var k :| k in y'.coord.trees && y'.coord.trees[k] == f.trees[p];
    }
    var q := Position(m.subtask, m.slot, c.operator.localTreeCount);
    assert f.trees[q] == m;
  }

  /** A message that comes in after the newest forest is of a later round than that forest. */
  lemma LaterRound(c: Setup, y: Sys, i: nat)
    requires Shape(c, y) && i < c.parallelism && OperatorOk(c, y, i) && y.treeAt[i] < |y.locals[i].sent|
    requires RoundsOk(c, y) && y.forests != []
    ensures RoundOf(y.forests[|y.forests| - 1]) < y.locals[i].sent[y.treeAt[i]].round
  {
    assert LastSlotDelivered(c, y, i);
    var sent, r, last := y.locals[i].sent, RoundOf(y.forests[|y.forests| - 1]), c.operator.localTreeCount - 1;
    var n :| 0 <= n < y.treeAt[i] && n < |sent| && sent[n].round == r && sent[n].slot == last;
    assert Trees(Cfg(c, i), y.locals[i].s, sent);
    assert Before(sent[n], sent[y.treeAt[i]]);
  }

  /** No new forest: what held of the newest one still does. */
  lemma RoundsSame(c: Setup, y: Sys, i: nat)
    requires Shape(c, y) && i < c.parallelism && y.treeAt[i] < |y.locals[i].sent| && RoundsOk(c, y)
    requires Do(c, y, TreeDelivered(i)).forests == y.forests
    ensures RoundsOk(c, Do(c, y, TreeDelivered(i)))
  {
    var y' := Do(c, y, TreeDelivered(i));
    forall j | 0 <= j < c.parallelism && y.forests != [] ensures LastSlotDelivered(c, y', j) {
      assert LastSlotDelivered(c, y, j);
      DeliveredGrows(y, y', j, RoundOf(y.forests[|y.forests| - 1]), c.operator.localTreeCount - 1);
    }
  }

  /** A new forest of one exact round, later than all before, with every subtask's last slot in. */
  lemma RoundsMore(c: Setup, y: Sys, y': Sys, f: Forest)
    requires Shape(c, y) && Shape(c, y') && RoundsOk(c, y) && y'.forests == y.forests + [f] && OneRound(f)
    requires y.forests != [] ==> RoundOf(y.forests[|y.forests| - 1]) < RoundOf(f)
    requires forall j :: 0 <= j < c.parallelism ==> RoundIn(c, y', j, RoundOf(f))
    ensures RoundsOk(c, y')
  {
    forall j | 0 <= j < c.parallelism ensures LastSlotDelivered(c, y', j) {
      assert RoundIn(c, y', j, RoundOf(f));
    }
  }

  lemma RoundsNext(c: Setup, y: Sys, i: nat)
    requires Shape(c, y) && i < c.parallelism && OperatorOk(c, y, i) && y.treeAt[i] < |y.locals[i].sent|
    requires LogOk(c, y) && VersionsOk(y) && TableOk(c, y) && RoundsOk(c, y) && |y.rounds| < ROUND_SPACE
    ensures RoundsOk(c, Do(c, y, TreeDelivered(i)))
  {
    var y', m := Do(c, y, TreeDelivered(i)), y.locals[i].sent[y.treeAt[i]];
    NewForest(c, y, i);
    if y'.forests == y.forests {
      RoundsSame(c, y, i);
    } else {
      var f := y'.forests[|y.forests|];
      assert TableOk(c, y') by { TableNext(c, y, i); }
      assert m.subtask == i && 0 <= m.slot < c.operator.localTreeCount by { MessageBounds(c, y, i, y.treeAt[i]); }
      ExactRound(c, y', f, m);
      if y.forests != [] { LaterRound(c, y, i); }
      forall j | 0 <= j < c.parallelism ensures RoundIn(c, y', j, RoundOf(f)) {
        LastSlotIn(c, y', f, m, j);
      }
      RoundsMore(c, y, y', f);
    }
  }

  lemma LastSlotIn(c: Setup, y': Sys, f: Forest, m: TreeMsg, j: nat)
    requires Shape(c, y') && TableOk(c, y') && Assembled(c, y', f, m) && OneRound(f)
    requires j < c.parallelism && c.operator.localTreeCount > 0
    ensures Delivered(y', j, RoundOf(f), c.operator.localTreeCount - 1)
  {
    var k := (j, c.operator.localTreeCount - 1);
    assert k in y'.coord.trees;
    assert f.trees[Position(k.0, k.1, c.operator.localTreeCount)] == y'.coord.trees[k];
  }

  /** A delivered message changes no operator. */
  lemma TreeDeliveredOperators(c: Setup, y: Sys, i: nat)
    requires Inv(c, y) && i < c.parallelism && y.treeAt[i] < |y.locals[i].sent|
    requires y.forests <= Do(c, y, TreeDelivered(i)).forests
    ensures forall j :: 0 <= j < c.parallelism ==> OperatorOk(c, Do(c, y, TreeDelivered(i)), j)
  {
    var y' := Do(c, y, TreeDelivered(i));
    forall j | 0 <= j < c.parallelism ensures OperatorOk(c, y', j) {
      assert OperatorOk(c, y, j);
      OperatorFrame(c, y, y', j);
    }
  }

  lemma TreeDeliveredForests(c: Setup, y: Sys, i: nat)
    requires Inv(c, y) && i < c.parallelism && y.treeAt[i] < |y.locals[i].sent|
    ensures var y' := Do(c, y, TreeDelivered(i)); VersionsOk(y') && ForestsOk(c, y') && y.forests <= y'.forests
  {
    NewForest(c, y, i);
  }

  lemma TreeDeliveredKeepsInv(c: Setup, y: Sys, i: nat)
    requires Inv(c, y) && i < c.parallelism && y.treeAt[i] < |y.locals[i].sent|
    ensures Inv(c, Do(c, y, TreeDelivered(i)))
  {
    assert OperatorOk(c, y, i);
    TreeDeliveredForests(c, y, i);
    TreeDeliveredOperators(c, y, i);
    TableNext(c, y, i);
    if |y.rounds| < ROUND_SPACE { RoundsNext(c, y, i); }
    assert LogOk(c, Do(c, y, TreeDelivered(i)));
  }

  // ---------- every run ----------

  lemma FreshOperator(cfg: Config)
    ensures Streams(cfg, START) && ExactlyOnce(START) && VersionsUp(START.s, START.scores)
  {
  }

  lemma InitOperator(c: Setup, i: nat)
    requires i < c.parallelism
    ensures OperatorOk(c, Init(c), i)
  {
    assert Init(c).locals[i] == START;
    FreshOperator(Cfg(c, i));
  }

  lemma InitInv(c: Setup)
    ensures Inv(c, Init(c))
  {
    var y := Init(c);
    assert A.Counted(c.agg, y.agg, y.rounds, 0);
    assert VersionsOk(y) && TableOk(c, y) && ForestsOk(c, y) && RoundsOk(c, y);
    forall i | 0 <= i < c.parallelism ensures OperatorOk(c, y, i) {
      InitOperator(c, i);
    }
  }

  lemma DoKeepsInv(c: Setup, y: Sys, a: Action)
    requires Inv(c, y) && c.agg.k > 0
    ensures Inv(c, Do(c, y, a))
  {
    match a
    case OnsetArrives(o) => OnsetKeepsInv(c, y, o);
    case PointArrives(i, p, now, accept) =>
      if i < c.parallelism { OwnEventKeepsInv(c, y, i, Element(p, now, accept)); }
    case TimerFires(i, ts) =>
      if i < c.parallelism { OwnEventKeepsInv(c, y, i, Timer(ts)); }
    case RoundDelivered(i) =>
      if i < c.parallelism && y.roundAt[i] < |y.rounds| { RoundDeliveredKeepsInv(c, y, i); }
    case ForestDelivered(i) =>
      if i < c.parallelism && y.forestAt[i] < |y.forests| { ForestDeliveredKeepsInv(c, y, i); }
    case TreeDelivered(i) =>
      if i < c.parallelism && y.treeAt[i] < |y.locals[i].sent| { TreeDeliveredKeepsInv(c, y, i); }
  }

  /** The state after a run. */
  ghost function After(c: Setup, actions: seq<Action>): (y: Sys)
    ensures Shape(c, y)
  {
    if actions == [] then Init(c) else Do(c, After(c, actions[..|actions| - 1]), actions[|actions| - 1])
  }

  lemma {:induction false} RunKeepsInv(c: Setup, actions: seq<Action>)
    requires c.agg.k > 0
    ensures Inv(c, After(c, actions))
  {
    if actions == [] {
      InitInv(c);
    } else {
      RunKeepsInv(c, actions[..|actions| - 1]);
      DoKeepsInv(c, After(c, actions[..|actions| - 1]), actions[|actions| - 1]);
    }
  }

  /** One action leaves an operator alone or takes it one event further. */
  lemma OneEvent(c: Setup, y: Sys, a: Action, i: nat) returns (e: Event)
    requires Shape(c, y) && i < c.parallelism
    ensures var t, t' := y.locals[i], Do(c, y, a).locals[i]; t' == t || t' == Next(Cfg(c, i), t, e)
  {
    match a
    case OnsetArrives(o) => e := Timer(0);
    case PointArrives(j, p, now, accept) => e := Element(p, now, accept);
    case TimerFires(j, ts) => e := Timer(ts);
    case RoundDelivered(j) => e := if j < |y.roundAt| && y.roundAt[j] < |y.rounds|
                                   then RoundArrives(y.rounds[y.roundAt[j]]) else Timer(0);
    case ForestDelivered(j) => e := if j < |y.forestAt| && y.forestAt[j] < |y.forests|
                                    then ForestArrives(y.forests[y.forestAt[j]]) else Timer(0);
    case TreeDelivered(j) => e := Timer(0);
  }

  /** Operators: over every run the fields of each one say of its past what the laws of its steps rest on. */
  lemma {:induction false} LedgersOfARun(c: Setup, actions: seq<Action>, i: nat)
    requires c.operator.ringBufferSize > 0 && i < c.parallelism
    ensures var t := After(c, actions).locals[i]; ControlOf(Cfg(c, i), t) && Ledger(Cfg(c, i), t)
  {
    if actions == [] {
      LedgerAlways(Cfg(c, i), []);
    } else {
      LedgersOfARun(c, actions[..|actions| - 1], i);
      var y, a := After(c, actions[..|actions| - 1]), actions[|actions| - 1];
      var e := OneEvent(c, y, a, i);
      ControlNext(Cfg(c, i), y.locals[i], e);
      LedgerNext(Cfg(c, i), y.locals[i], e);
    }
  }

  /** Forests: one tree per (subtask, slot), of the sample size the forest carries, versions 1, 2, 3, ... */
  lemma ForestsOfARun(c: Setup, actions: seq<Action>)
    requires c.agg.k > 0
    ensures var y := After(c, actions);
      forall n :: 0 <= n < |y.forests| ==>
        && y.forests[n].version == n + 1
        && OneEach(y.forests[n].trees, c.parallelism, c.operator.localTreeCount)
        && SameRound(y.forests[n].trees) && Sized(y.forests[n])
  {
    RunKeepsInv(c, actions);
  }

  /** Rounds: as long as fewer than 2^32 were committed, each forest is of one round, later than those before. */
  lemma RoundsOfARun(c: Setup, actions: seq<Action>)
    requires c.agg.k > 0 && |After(c, actions).rounds| < ROUND_SPACE
    ensures var y := After(c, actions);
      && (forall n, p :: 0 <= n < |y.forests| && 0 <= p < |y.forests[n].trees| ==>
            y.forests[n].trees[p].round == RoundOf(y.forests[n]))
      && (forall m, n :: 0 <= m < n < |y.forests| ==> RoundOf(y.forests[m]) < RoundOf(y.forests[n]))
  {
    RunKeepsInv(c, actions);
    var y := After(c, actions);
    forall n | 0 <= n < |y.forests|
      ensures forall p :: 0 <= p < |y.forests[n].trees| ==> y.forests[n].trees[p].round == RoundOf(y.forests[n])
    {
      assert OneRound(y.forests[n]);
    }
  }

  /**
    Scores: every operator has scored its arrivals exactly once and in order, except for the backlog it still holds;
    the forest version never decreases along its output and is one the coordinator has emitted.
   */
  lemma ScoresOfARun(c: Setup, actions: seq<Action>, i: nat)
    requires c.agg.k > 0 && i < c.parallelism
    ensures var t := After(c, actions).locals[i];
      && Points(t.scores) + t.s.backlog == t.arrived
      && (forall m, n :: 0 <= m < n < |t.scores| ==> t.scores[m].version <= t.scores[n].version)
      && (forall n :: 0 <= n < |t.scores| ==> 1 <= t.scores[n].version <= |After(c, actions).forests|)
  {
    RunKeepsInv(c, actions);
    assert OperatorOk(c, After(c, actions), i);
  }

  /** Trees: each operator opens at most one COOLDOWN per round, and sends all slots of a retraining round or none. */
  lemma TreesOfARun(c: Setup, actions: seq<Action>, i: nat)
    requires c.agg.k > 0 && i < c.parallelism
    ensures var t := After(c, actions).locals[i];
      && (forall m, n :: 0 <= m < n < |t.rounds| ==> t.rounds[m] < t.rounds[n])
      && Ordered(t.sent) && Complete(Cfg(c, i), t.sent)
  {
    RunKeepsInv(c, actions);
    assert OperatorOk(c, After(c, actions), i);
  }
}
