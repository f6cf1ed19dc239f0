/** From the points an operator received to the forests the coordinator emits, under the D1A policy. */
module ProtocolPools {
  import opened Messages
  import opened Results
  import opened LocalModel
  import opened LocalRuns
  import opened LocalStreams
  import opened LocalPools
  import opened CoordinatorModel
  import opened Protocol

  /** The message is one its subtask has sent. */
  ghost predicate Known(y: Sys, m: TreeMsg) {
    0 <= m.subtask < |y.locals| && m in y.locals[m.subtask].sent
  }

  ghost predicate TableKnown(y: Sys) {
    forall k :: k in y.coord.trees ==> Known(y, y.coord.trees[k])
  }

  ghost predicate TreesKnown(y: Sys) {
    && TableKnown(y)
    && (forall n, p :: 0 <= n < |y.forests| && 0 <= p < |y.forests[n].trees| ==> Known(y, y.forests[n].trees[p]))
  }

  ghost predicate OperatorPools(c: Setup, y: Sys)
    requires Shape(c, y)
  {
    forall i :: 0 <= i < c.parallelism ==> Pools(Cfg(c, i), y.locals[i])
  }

  predicate D1aSetup(c: Setup) {
    c.agg.k > 0 && c.operator.policy == D1A && c.operator.ringBufferSize > 0
  }

  lemma KnownLater(y: Sys, y': Sys)
    requires y'.coord == y.coord && y'.forests == y.forests && |y'.locals| == |y.locals|
    requires forall i :: 0 <= i < |y.locals| ==> y.locals[i].sent <= y'.locals[i].sent
    requires TreesKnown(y)
    ensures TreesKnown(y')
  {
    forall m | Known(y, m) ensures Known(y', m) {
      var n :| 0 <= n < |y.locals[m.subtask].sent| && y.locals[m.subtask].sent[n] == m;
      assert y'.locals[m.subtask].sent[n] == m;
    }
  }

  /** One in-order event of operator i. */
  lemma EventKeepsPools(c: Setup, y: Sys, i: nat, e: Event)
    requires D1aSetup(c) && Inv(c, y) && OperatorPools(c, y) && i < c.parallelism && InOrder(y.locals[i].s, e)
    ensures OperatorPools(c, At(c, y, i, e))
  {
    assert OperatorOk(c, y, i);
    PoolsNext(Cfg(c, i), y.locals[i], e);
  }

  lemma EventSends(cfg: Config, t: Trace, e: Event)
    ensures t.sent <= Next(cfg, t, e).sent
  {
  }

  lemma EventKeepsKnown(c: Setup, y: Sys, i: nat, e: Event)
    requires Shape(c, y) && TreesKnown(y) && i < c.parallelism
    ensures TreesKnown(At(c, y, i, e))
  {
    EventSends(Cfg(c, i), y.locals[i], e);
    KnownLater(y, At(c, y, i, e));
  }

  lemma StoredKnown(y: Sys, y': Sys, m: TreeMsg)
    requires TableKnown(y) && Known(y, m) && y'.locals == y.locals
    requires y'.coord.trees == y.coord.trees || y'.coord.trees == y.coord.trees[(m.subtask, m.slot) := m]
    ensures TableKnown(y')
  {
    forall k | k in y'.coord.trees ensures Known(y', y'.coord.trees[k]) {
      assert y'.coord.trees[k] == m || (k in y.coord.trees && Known(y, y.coord.trees[k]));
    }
  }

  lemma MembersKnown(y: Sys, f: Forest)
    requires TableKnown(y) && forall p :: 0 <= p < |f.trees| ==> f.trees[p] in y.coord.trees.Values
    ensures forall p :: 0 <= p < |f.trees| ==> Known(y, f.trees[p])
  {
    forall p | 0 <= p < |f.trees| ensures Known(y, f.trees[p]) {
      assert f.trees[p] in y.coord.trees.Values;
      var k :| k in y.coord.trees && y.coord.trees[k] == f.trees[p];
    }
  }

  /** The forests are those from before and at most one more, made of stored trees. */
  lemma ForestsKnown(y: Sys, y': Sys, f: Option<Forest>)
    requires TreesKnown(y) && TableKnown(y') && y'.locals == y.locals
    requires y'.forests == if f.Some? then y.forests + [f.value] else y.forests
    requires f.Some? ==> forall p :: 0 <= p < |f.value.trees| ==> f.value.trees[p] in y'.coord.trees.Values
    ensures TreesKnown(y')
  {
    if f.Some? { MembersKnown(y', f.value); }
    forall n, p | 0 <= n < |y'.forests| && 0 <= p < |y'.forests[n].trees| ensures Known(y', y'.forests[n].trees[p]) {
      if n < |y.forests| { assert Known(y, y.forests[n].trees[p]); }
    }
  }

  lemma DeliveryKnown(c: Setup, y: Sys, i: nat)
    requires Inv(c, y) && TreesKnown(y) && i < c.parallelism && y.treeAt[i] < |y.locals[i].sent|
    ensures TreesKnown(Do(c, y, TreeDelivered(i)))
  {
    var m, slots := y.locals[i].sent[y.treeAt[i]], c.operator.localTreeCount;
    var y', f := Do(c, y, TreeDelivered(i)), Receive(c.parallelism, slots, y.coord, m).1;
    assert Known(y, m) by {
      assert OperatorOk(c, y, i);
      MessageBounds(c, y, i, y.treeAt[i]);
    }
    ReceiveTable(c.parallelism, slots, y.coord, m);
    StoredKnown(y, y', m);
    ForestMembers(c.parallelism, slots, y.coord, m);
    ForestsKnown(y, y', f);
  }

  ghost predicate PoolsInv(c: Setup, y: Sys) {
    Inv(c, y) && OperatorPools(c, y) && TreesKnown(y)
  }

  lemma InitPools(c: Setup)
    requires D1aSetup(c)
    ensures PoolsInv(c, Init(c))
  {
    InitInv(c);
    forall i | 0 <= i < c.parallelism ensures Pools(Cfg(c, i), Init(c).locals[i]) {
      assert Init(c).locals[i] == START;
    }
  }

  /** Only operator i takes a step; the logs' readers may move. */
  lemma OperatorStep(c: Setup, y: Sys, y': Sys, i: nat, e: Event)
    requires D1aSetup(c) && PoolsInv(c, y) && i < c.parallelism && InOrder(y.locals[i].s, e)
    requires Shape(c, y') && y'.locals == At(c, y, i, e).locals && y'.coord == y.coord && y'.forests == y.forests
    ensures OperatorPools(c, y') && TreesKnown(y')
  {
    EventKeepsPools(c, y, i, e);
    EventKeepsKnown(c, y, i, e);
  }

  lemma RoundStep(c: Setup, y: Sys, i: nat)
    requires D1aSetup(c) && PoolsInv(c, y) && i < c.parallelism && y.roundAt[i] < |y.rounds|
    ensures OperatorPools(c, Do(c, y, RoundDelivered(i))) && TreesKnown(Do(c, y, RoundDelivered(i)))
  {
    RoundInOrder(c, y, i);
    OperatorStep(c, y, Do(c, y, RoundDelivered(i)), i, RoundArrives(y.rounds[y.roundAt[i]]));
  }

  lemma ForestStep(c: Setup, y: Sys, i: nat)
    requires D1aSetup(c) && PoolsInv(c, y) && i < c.parallelism && y.forestAt[i] < |y.forests|
    ensures OperatorPools(c, Do(c, y, ForestDelivered(i))) && TreesKnown(Do(c, y, ForestDelivered(i)))
  {
    ForestInOrder(c, y, i);
    OperatorStep(c, y, Do(c, y, ForestDelivered(i)), i, ForestArrives(y.forests[y.forestAt[i]]));
  }

  /** Every action keeps the provenance of every tree, wherever it has got to. */
  lemma DoKeepsPools(c: Setup, y: Sys, a: Action)
    requires D1aSetup(c) && PoolsInv(c, y)
    ensures OperatorPools(c, Do(c, y, a)) && TreesKnown(Do(c, y, a))
  {
    match a
    case OnsetArrives(o) =>
    case PointArrives(i, p, now, accept) =>
      if i < c.parallelism { OperatorStep(c, y, Do(c, y, a), i, Element(p, now, accept)); }
    case TimerFires(i, ts) =>
      if i < c.parallelism { OperatorStep(c, y, Do(c, y, a), i, Timer(ts)); }
    case RoundDelivered(i) =>
      if i < c.parallelism && y.roundAt[i] < |y.rounds| { RoundStep(c, y, i); }
    case ForestDelivered(i) =>
      if i < c.parallelism && y.forestAt[i] < |y.forests| { ForestStep(c, y, i); }
    case TreeDelivered(i) =>
      if i < c.parallelism && y.treeAt[i] < |y.locals[i].sent| { DeliveryKnown(c, y, i); }
  }

  lemma {:induction false} RunKeepsPools(c: Setup, actions: seq<Action>)
    requires D1aSetup(c)
    ensures PoolsInv(c, After(c, actions))
  {
    if actions == [] {
      InitPools(c);
    } else {
      RunKeepsPools(c, actions[..|actions| - 1]);
      DoKeepsInv(c, After(c, actions[..|actions| - 1]), actions[|actions| - 1]);
      DoKeepsPools(c, After(c, actions[..|actions| - 1]), actions[|actions| - 1]);
    }
  }

  /**
    Pools: each tree of each emitted forest was sent by its subtask and trained on known points of that subtask: in
    round 0 on the newest ringBufferSize when ringBufferSize + 1 + slot had arrived, and in a later round on the
    newest ringBufferSize of the first `Target` points from the one that consumed the COMMITTED of the round on.
   */
  lemma PoolsOfARun(c: Setup, actions: seq<Action>, n: nat, p: nat)
    requires D1aSetup(c)
    requires n < |After(c, actions).forests| && p < |After(c, actions).forests[n].trees|
    ensures var y := After(c, actions); var m := y.forests[n].trees[p];
      Known(y, m) && Sourced(Cfg(c, m.subtask), y.locals[m.subtask], m)
  {
    RunKeepsPools(c, actions);
    var y := After(c, actions);
    var m := y.forests[n].trees[p];
    assert Known(y, m);
    assert Pools(Cfg(c, m.subtask), y.locals[m.subtask]);
  }
}
