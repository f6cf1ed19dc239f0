/** One step of the coordinator: the slot table, the round and sample-size checks, the version counter. */
module CoordinatorModel {
  import opened Messages
  import opened Results

  datatype Coord = Coord(trees: map<(int, int), TreeMsg>, version: Option<int>, dirty: Option<bool>)

  const NEW_COORD := Coord(map[], None, None)

  /** The stored trees of the first `n` slots of subtask `i`, in slot order. */
  function Row(trees: map<(int, int), TreeMsg>, i: int, n: nat): seq<TreeMsg> {
    if n == 0 then []
    else Row(trees, i, n - 1) + if (i, n - 1) in trees then [trees[(i, n - 1)]] else []
  }

  /** The stored trees of the first `k` subtasks, in (subtask, slot) order. */
  function Rows(trees: map<(int, int), TreeMsg>, k: nat, slots: nat): seq<TreeMsg> {
    if k == 0 then [] else Rows(trees, k - 1, slots) + Row(trees, k - 1, slots)
  }

  predicate SameRound(ts: seq<TreeMsg>) {
    forall i :: 0 <= i < |ts| ==> LowRound(ts[i]) == LowRound(ts[0])
  }

  predicate SameSize(ts: seq<TreeMsg>) {
    forall i :: 0 <= i < |ts| ==> ts[i].tree.subsampleSize == ts[0].tree.subsampleSize
  }

  /** A forest is assembled only from a full table of one round and one sample size. */
  predicate Assembles(ts: seq<TreeMsg>, expected: nat) {
    |ts| == expected && expected > 0 && SameRound(ts) && SameSize(ts)
  }

  function Fire(s: Coord, parallelism: nat, slots: nat): (Coord, Option<Forest>) {
    var ts := Rows(s.trees, parallelism, slots);
    if Assembles(ts, parallelism * slots) then
      var v := s.version.GetOr(0) + 1;
      (s.(version := Some(v)), Some(Forest(v, ts[0].tree.subsampleSize, ts)))
    else (s, None)
  }

  function Receive(parallelism: nat, slots: nat, s: Coord, m: TreeMsg): (Coord, Option<Forest>) {
    if !(0 <= m.subtask < parallelism) || !(0 <= m.slot < slots) then (s, None)
    else
      var s1 := s.(trees := s.trees[(m.subtask, m.slot) := m], dirty := Some(true));
      if |s1.trees| >= parallelism * slots then
        var (s2, f) := Fire(s1, parallelism, slots);
        (s2.(dirty := Some(false)), f)
      else (s1, None)
  }

  // ---------- what an assembled forest contains ----------

  /** The sample size a forest carries, by which its scores are normalised, is that of every tree in it. */
  ghost predicate Sized(f: Forest) {
    forall i :: 0 <= i < |f.trees| ==> f.trees[i].tree.subsampleSize == f.subsampleSize
  }

  /** Tree number i * slots + j is the one of subtask i and slot j. */
  ghost predicate OneEach(ts: seq<TreeMsg>, parallelism: nat, slots: nat) {
    && |ts| == parallelism * slots
    && forall i, j :: 0 <= i < parallelism && 0 <= j < slots ==>
         Position(i, j, slots) < |ts| && ts[Position(i, j, slots)].subtask == i && ts[Position(i, j, slots)].slot == j
  }

  function Position(i: nat, j: nat, slots: nat): nat { i * slots + j }

  /** Keys are where their messages belong. */
  ghost predicate Keyed(trees: map<(int, int), TreeMsg>) {
    forall k :: k in trees ==> trees[k].subtask == k.0 && trees[k].slot == k.1
  }

  lemma {:induction false} RowFull(trees: map<(int, int), TreeMsg>, i: int, n: nat)
    ensures |Row(trees, i, n)| <= n
    ensures |Row(trees, i, n)| == n ==>
      forall j :: 0 <= j < n ==> (i, j) in trees && Row(trees, i, n)[j] == trees[(i, j)]
  {
    if n > 0 { RowFull(trees, i, n - 1); }
  }

  lemma {:induction false} RowsFull(trees: map<(int, int), TreeMsg>, k: nat, slots: nat)
    ensures |Rows(trees, k, slots)| <= k * slots
    ensures |Rows(trees, k, slots)| == k * slots ==>
      forall i, j :: 0 <= i < k && 0 <= j < slots ==>
        (i, j) in trees && Position(i, j, slots) < k * slots
        && Rows(trees, k, slots)[Position(i, j, slots)] == trees[(i, j)]
  {
    if k > 0 {
      RowsFull(trees, k - 1, slots);
      RowFull(trees, k - 1, slots);
      assert k * slots == (k - 1) * slots + slots;
      if |Rows(trees, k, slots)| == k * slots {
        forall i, j | 0 <= i < k && 0 <= j < slots
          ensures (i, j) in trees && Position(i, j, slots) < k * slots
                  && Rows(trees, k, slots)[Position(i, j, slots)] == trees[(i, j)]
        {
          if i == k - 1 {
            assert Position(i, j, slots) == (k - 1) * slots + j;
          }
        }
      }
    }
  }

  /** Tree number i * slots + j is the one stored for subtask i and slot j. */
  ghost predicate CopiesTable(ts: seq<TreeMsg>, trees: map<(int, int), TreeMsg>, parallelism: nat, slots: nat) {
    forall i, j :: 0 <= i < parallelism && 0 <= j < slots ==>
      && (i, j) in trees && Position(i, j, slots) < |ts|
      && ts[Position(i, j, slots)] == trees[(i, j)]
  }

  lemma RowsCopyTable(trees: map<(int, int), TreeMsg>, parallelism: nat, slots: nat)
    requires Keyed(trees) && |Rows(trees, parallelism, slots)| == parallelism * slots
    ensures var ts := Rows(trees, parallelism, slots);
      OneEach(ts, parallelism, slots) && CopiesTable(ts, trees, parallelism, slots)
  {
    RowsFull(trees, parallelism, slots);
  }

  lemma FireMeaning(s: Coord, parallelism: nat, slots: nat)
    requires Keyed(s.trees)
    ensures var (s', f) := Fire(s, parallelism, slots);
      && s'.trees == s.trees
      && (f.None? ==> s'.version == s.version)
      && (f.Some? ==>
            && parallelism * slots > 0
            && s'.version == Some(s.version.GetOr(0) + 1) && f.value.version == s.version.GetOr(0) + 1
            && OneEach(f.value.trees, parallelism, slots) && SameRound(f.value.trees) && Sized(f.value)
            && CopiesTable(f.value.trees, s.trees, parallelism, slots))
  {
    if Fire(s, parallelism, slots).1.Some? {
      RowsCopyTable(s.trees, parallelism, slots);
    }
  }

  /** An emitted forest has exactly one tree per (subtask, slot), all of one round and size, and the next version. */
  lemma ReceiveMeaning(parallelism: nat, slots: nat, s: Coord, m: TreeMsg)
    requires Keyed(s.trees)
    ensures var (s', f) := Receive(parallelism, slots, s, m);
      && Keyed(s'.trees)
      && (f.None? ==> s'.version == s.version)
      && (f.Some? ==>
            && 0 <= m.subtask < parallelism && 0 <= m.slot < slots
            && s'.version == Some(s.version.GetOr(0) + 1) && f.value.version == s.version.GetOr(0) + 1
            && OneEach(f.value.trees, parallelism, slots) && SameRound(f.value.trees) && Sized(f.value)
            && CopiesTable(f.value.trees, s'.trees, parallelism, slots))
  {
    if 0 <= m.subtask < parallelism && 0 <= m.slot < slots {
      var s1 := s.(trees := s.trees[(m.subtask, m.slot) := m], dirty := Some(true));
      assert Keyed(s1.trees);
      FireMeaning(s1, parallelism, slots);
    }
  }

  /** The table after a message: its slot overwritten if it is in range. */
  lemma ReceiveTable(parallelism: nat, slots: nat, s: Coord, m: TreeMsg)
    ensures Receive(parallelism, slots, s, m).0.trees ==
            if 0 <= m.subtask < parallelism && 0 <= m.slot < slots then s.trees[(m.subtask, m.slot) := m] else s.trees
  {
  }

  lemma {:induction false} RowMembers(trees: map<(int, int), TreeMsg>, i: int, n: nat)
    ensures forall p :: 0 <= p < |Row(trees, i, n)| ==> Row(trees, i, n)[p] in trees.Values
  {
    if n > 0 { RowMembers(trees, i, n - 1); }
  }

  /** An assembled list holds nothing but stored trees. */
  lemma {:induction false} RowsMembers(trees: map<(int, int), TreeMsg>, k: nat, slots: nat)
    ensures forall p :: 0 <= p < |Rows(trees, k, slots)| ==> Rows(trees, k, slots)[p] in trees.Values
  {
    if k > 0 {
      RowsMembers(trees, k - 1, slots);
      RowMembers(trees, k - 1, slots);
    }
  }

  lemma ForestMembers(parallelism: nat, slots: nat, s: Coord, m: TreeMsg)
    ensures var (s', f) := Receive(parallelism, slots, s, m);
      f.Some? ==> |f.value.trees| > 0 && forall p :: 0 <= p < |f.value.trees| ==> f.value.trees[p] in s'.trees.Values
  {
    RowsMembers(Receive(parallelism, slots, s, m).0.trees, parallelism, slots);
  }

  // ---------- exactly when a forest is assembled ----------

  ghost predicate Full(trees: map<(int, int), TreeMsg>, parallelism: nat, slots: nat) {
    forall i, j :: 0 <= i < parallelism && 0 <= j < slots ==> (i, j) in trees
  }

  ghost function RowCells(i: int, n: nat): set<(int, int)> {
    if n == 0 then {} else RowCells(i, n - 1) + {(i, n - 1)}
  }

  ghost function Cells(k: nat, slots: nat): set<(int, int)> {
    if k == 0 then {} else Cells(k - 1, slots) + RowCells(k - 1, slots)
  }

  lemma {:induction false} RowCellsMeaning(i: int, n: nat)
    ensures |RowCells(i, n)| == n
    ensures forall c :: c in RowCells(i, n) <==> c.0 == i && 0 <= c.1 < n
  {
    if n > 0 { RowCellsMeaning(i, n - 1); }
  }

  lemma {:induction false} CellsMembers(k: nat, slots: nat)
    ensures forall c :: c in Cells(k, slots) <==> 0 <= c.0 < k && 0 <= c.1 < slots
  {
    if k > 0 {
      CellsMembers(k - 1, slots);
      RowCellsMeaning(k - 1, slots);
    }
  }

  /** k * slots, one row at a time. */
  ghost function Area(k: nat, slots: nat): nat {
    if k == 0 then 0 else Area(k - 1, slots) + slots
  }

  lemma {:induction false} AreaMeaning(k: nat, slots: nat)
    ensures Area(k, slots) == k * slots
  {
    if k > 0 {
      AreaMeaning(k - 1, slots);
      OneMore(k - 1, slots);
    }
  }

  lemma {:induction false} CellsCount(k: nat, slots: nat)
    ensures |Cells(k, slots)| == Area(k, slots)
  {
    if k > 0 {
      CellsCount(k - 1, slots);
      CellsMembers(k - 1, slots);
      RowCellsMeaning(k - 1, slots);
      DisjointUnion(Cells(k - 1, slots), RowCells(k - 1, slots));
    }
  }

  lemma DisjointUnion<T>(a: set<T>, b: set<T>)
    requires forall x :: x in a ==> x !in b
    ensures |a + b| == |a| + |b|
  {
    assert a !! b;
  }

  lemma OneMore(k: nat, slots: nat)
    ensures (k + 1) * slots == k * slots + slots
  {
  }

  lemma FullIsLarge(trees: map<(int, int), TreeMsg>, parallelism: nat, slots: nat)
    requires Full(trees, parallelism, slots)
    ensures |trees| >= parallelism * slots
  {
    CellsMembers(parallelism, slots);
    CellsCount(parallelism, slots);
    AreaMeaning(parallelism, slots);
    assert Cells(parallelism, slots) <= trees.Keys;
    Subset(Cells(parallelism, slots), trees.Keys);
  }

  lemma Subset<T>(a: set<T>, b: set<T>)
    requires a <= b
    ensures |a| <= |b|
  {
    assert b == a + (b - a);
  }

  lemma {:induction false} FullRow(trees: map<(int, int), TreeMsg>, i: int, n: nat)
    requires forall j :: 0 <= j < n ==> (i, j) in trees
    ensures |Row(trees, i, n)| == n
  {
    if n > 0 { FullRow(trees, i, n - 1); }
  }

  lemma {:induction false} FullRows(trees: map<(int, int), TreeMsg>, k: nat, slots: nat)
    requires Full(trees, k, slots)
    ensures |Rows(trees, k, slots)| == k * slots
  {
    if k > 0 {
      FullRows(trees, k - 1, slots);
      FullRow(trees, k - 1, slots);
      assert k * slots == (k - 1) * slots + slots;
    }
  }

  /**
    A message makes the coordinator emit exactly when it is in range and, once it is stored, every slot is filled
    with trees of one (low) round and one sample size.  The batch-end mark plays no part.
   */
  lemma FiresExactly(parallelism: nat, slots: nat, s: Coord, m: TreeMsg)
    ensures var trees := s.trees[(m.subtask, m.slot) := m];
      Receive(parallelism, slots, s, m).1.Some? <==>
        && 0 <= m.subtask < parallelism && 0 <= m.slot < slots
        && Full(trees, parallelism, slots)
        && SameRound(Rows(trees, parallelism, slots)) && SameSize(Rows(trees, parallelism, slots))
  {
    var trees := s.trees[(m.subtask, m.slot) := m];
    RowsFull(trees, parallelism, slots);
    if 0 <= m.subtask < parallelism && 0 <= m.slot < slots {
      assert parallelism * slots > 0;
      if Full(trees, parallelism, slots) {
        FullIsLarge(trees, parallelism, slots);
        FullRows(trees, parallelism, slots);
      }
    }
  }

  // ---------- which rounds the coordinator can tell apart ----------

  /** Two round ids pass for the same one exactly when they agree in their low 32 bits. */
  lemma RoundsConfusedExactly(a: TreeMsg, b: TreeMsg)
    requires a.round >= 0 && b.round >= 0
    ensures SameRound([a, b]) <==> (b.round - a.round) % 0x1_0000_0000 == 0
    ensures a.round < 0x1_0000_0000 && b.round < 0x1_0000_0000 ==> (SameRound([a, b]) <==> a.round == b.round)
  {
    var ts := [a, b];
    assert SameRound(ts) <==> LowRound(ts[1]) == LowRound(ts[0]);
  }

  function FromSubtask(i: int, round: int, tree: Trained): TreeMsg {
    TreeMsg(i, 0, round, true, tree)
  }

  /** Two subtasks of one slot: both have sent round 0, and the second one then sends rounds 1 to n. */
  function Ahead(tree: Trained, n: nat): (Coord, Option<Forest>) {
    var before := if n == 0 then Receive(2, 1, NEW_COORD, FromSubtask(0, 0, tree)).0 else Ahead(tree, n - 1).0;
    Receive(2, 1, before, FromSubtask(1, n, tree))
  }

  function Table(tree: Trained, n: nat): map<(int, int), TreeMsg> {
    map[(0, 0) := FromSubtask(0, 0, tree), (1, 0) := FromSubtask(1, n, tree)]
  }

  lemma TableFires(s: Coord, tree: Trained, n: nat)
    requires s.trees == Table(tree, n)
    ensures Rows(s.trees, 2, 1) == [FromSubtask(0, 0, tree), FromSubtask(1, n, tree)]
    ensures Fire(s, 2, 1).1.Some? <==> n % ROUND_SPACE == 0
  {
    var a, b := FromSubtask(0, 0, tree), FromSubtask(1, n, tree);
    assert Row(s.trees, 0, 1) == [a] && Row(s.trees, 1, 1) == [b];
    assert Rows(s.trees, 1, 1) == [a];
    var ts := Rows(s.trees, 2, 1);
    assert ts == [a, b];
    assert SameRound(ts) <==> LowRound(ts[1]) == LowRound(ts[0]);
  }

  /**
    The second subtask runs ahead of the first one: its rounds are held back until the low 32 bits come round again,
    and then a forest of two different rounds is assembled.
   */
  lemma {:induction false} RoundsWrap(tree: Trained, n: nat)
    ensures Ahead(tree, n).0.trees == Table(tree, n)
    ensures Ahead(tree, n).1.Some? <==> n % ROUND_SPACE == 0
    ensures Ahead(tree, n).1.Some? ==>
      Ahead(tree, n).1.value.trees == [FromSubtask(0, 0, tree), FromSubtask(1, n, tree)]
  {
    if n > 0 { RoundsWrap(tree, n - 1); }
    var before := if n == 0 then Receive(2, 1, NEW_COORD, FromSubtask(0, 0, tree)).0 else Ahead(tree, n - 1).0;
    var m := FromSubtask(1, n, tree);
    var s := before.(trees := before.trees[(1, 0) := m], dirty := Some(true));
    assert s.trees == Table(tree, n);
    assert s.trees.Keys == {(0, 0), (1, 0)};
    TableFires(s, tree, n);
  }
}
